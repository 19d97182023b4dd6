/**
 * The contents of a chained hash table as a value: one sequence of students per
 * bucket, in chain order (head first). The functions here specify the
 * operations of the imperative table in hash_table.dfy, and the lemmas state
 * what those operations mean for placement, lookup, contents and traversal.
 */
module Buckets {
  import opened Students

  /** `maxCollisionCount`: the chain length at which `insert` reports "should grow". */
  const MaxCollisionCount: int := 3

  /**
   * `hash`: the bucket of `key` in a table of `size` buckets, with C++'s `%`,
   * which truncates toward zero: the remainder has the sign of `key` and a
   * magnitude below `size`.
   */
  function Hash(key: int32, size: int32): (r: int)
    requires size > 0
    ensures -(size as int) < r < size as int
    ensures key >= 0 ==> r >= 0
    ensures key <= 0 ==> r <= 0
  {
    if key >= 0 then key as int % size as int
    else -((-(key as int)) % size as int)
  }

  /** C++'s `/` on `int`: the quotient truncated toward zero. */
  function TruncatedQuotient(key: int32, size: int32): int
    requires size > 0
  {
    if key >= 0 then key as int / size as int
    else -((-(key as int)) / size as int)
  }

  /** Hash is the remainder that goes with C++'s truncating quotient: `(a/b)*b + a%b == a`. */
  lemma HashDivision(key: int32, size: int32)
    requires size > 0
    ensures TruncatedQuotient(key, size) * size as int + Hash(key, size) == key as int
  {
    var k, n := if key >= 0 then key as int else -(key as int), size as int;
    assert k == (k / n) * n + k % n;
    if key < 0 {
      assert -(k / n) * n == -((k / n) * n);
    }
  }

  /**
   * A key the source can hash without indexing out of the bucket array:
   * the divisor is non-zero and the truncated remainder is not negative.
   */
  predicate Addressable(key: int32, size: int32) {
    size > 0 && 0 <= Hash(key, size)
  }

  /** For a non-negative key the bucket is the ordinary remainder. */
  lemma HashOfNatural(key: int32, size: int32)
    requires size > 0 && key >= 0
    ensures Hash(key, size) == key as int % size as int
    ensures Addressable(key, size)
  {
  }

  /**
   * The source indexes inside its bucket array exactly for non-negative keys and
   * for negative keys that are multiples of the size; every other negative key
   * lands on a negative index.
   */
  lemma {:induction false} AddressableIff(key: int32, size: int32)
    requires size > 0
    ensures Addressable(key, size) <==> key >= 0 || key as int % size as int == 0
    ensures Addressable(key, size) ==> 0 <= Hash(key, size) < size as int
  {
    if key < 0 {
      NegatedDivisible(-(key as int), size as int);
    }
  }

  /** `k` is a multiple of `n` exactly when `-k` is. */
  lemma NegatedDivisible(k: int, n: int)
    requires n > 0
    ensures k % n == 0 <==> (-k) % n == 0
  {
    var q := k / n;
    assert k == q * n + k % n;
    if k % n == 0 {
      assert -k == (-q) * n + 0;
      RemainderUnique(-k, n, -q, 0);
    }
    var q' := (-k) / n;
    assert -k == q' * n + (-k) % n;
    if (-k) % n == 0 {
      assert k == (-q') * n + 0;
      RemainderUnique(k, n, -q', 0);
    }
  }

  /** Euclidean division has one remainder: any `a == q * n + r` with `0 <= r < n` gives it. */
  lemma RemainderUnique(a: int, n: int, q: int, r: int)
    requires n > 0 && 0 <= r < n && a == q * n + r
    ensures a % n == r
  {
    var q', r' := a / n, a % n;
    assert a == q' * n + r';
    var d := q - q';
    assert d * n == r' - r by {
      assert q * n - q' * n == (q - q') * n;
    }
    if d >= 1 {
      MultipleAtLeast(d, n);
    } else if d <= -1 {
      MultipleAtLeast(-d, n);
    }
  }

  lemma MultipleAtLeast(d: int, n: int)
    requires d >= 1 && n > 0
    ensures d * n >= n
  {
  }

  /**
   * The table invariant: every student stored in bucket `i` has `Hash(id) == i`.
   */
  ghost predicate WellPlaced(b: seq<seq<Student>>, size: int32) {
    forall i :: 0 <= i < |b| ==> forall s :: s in b[i] ==> size > 0 && Hash(s.id, size) == i
  }

  /** The buckets before `n` of a well-placed table are well placed. */
  lemma WellPlacedPrefix(b: seq<seq<Student>>, size: int32, n: int)
    requires WellPlaced(b, size) && 0 <= n <= |b|
    ensures WellPlaced(b[..n], size)
  {
  }

  /** The table `size` buckets wide with every chain empty. */
  function Empty(size: int32): (b: seq<seq<Student>>)
    requires size >= 0
    ensures |b| == size as int
    ensures forall i :: 0 <= i < |b| ==> b[i] == []
  {
    seq(size as int, _ => [])
  }

  /** An empty table is well placed and holds nothing. */
  lemma {:induction false} EmptyIsEmpty(n: int32)
    requires n >= 0
    ensures WellPlaced(Empty(n), n)
    ensures Flatten(Empty(n)) == []
  {
    AllEmptyFlatten(Empty(n));
  }

  lemma {:induction false} AllEmptyFlatten(b: seq<seq<Student>>)
    requires forall i :: 0 <= i < |b| ==> b[i] == []
    ensures Flatten(b) == []
  {
    if b != [] {
      AllEmptyFlatten(b[..|b| - 1]);
    }
  }

  /** Every stored student, bucket by bucket, each chain front to back. */
  function Flatten(b: seq<seq<Student>>): seq<Student> {
    if b == [] then [] else Flatten(b[..|b| - 1]) + b[|b| - 1]
  }

  /** A student is stored in the table exactly when it sits in one of the chains. */
  lemma {:induction false} FlattenMember(b: seq<seq<Student>>, s: Student)
    ensures s in Flatten(b) <==> exists i :: 0 <= i < |b| && s in b[i]
  {
    if b != [] {
      var init := b[..|b| - 1];
      FlattenMember(init, s);
      if s in Flatten(init) {
        var i :| 0 <= i < |init| && s in init[i];
        assert s in b[i];
      }
      if i :| 0 <= i < |b| && s in b[i] {
        if i < |b| - 1 {
          assert s in init[i];
        }
      }
    }
  }

  /** `get` on one chain: the first student, front to back, whose id is `id`. */
  function FirstMatch(chain: seq<Student>, id: int32): (r: Option<Student>)
    ensures r.Some? ==> r.value in chain && r.value.id == id
    ensures r.None? <==> forall k :: 0 <= k < |chain| ==> chain[k].id != id
  {
    if chain == [] then None
    else if chain[0].id == id then Some(chain[0])
    else FirstMatch(chain[1..], id)
  }

  /** The match is the first one: the entry at the lowest position with that id. */
  lemma {:induction false} FirstMatchAt(chain: seq<Student>, id: int32, k: int)
    requires 0 <= k < |chain| && chain[k].id == id
    requires forall j :: 0 <= j < k ==> chain[j].id != id
    ensures FirstMatch(chain, id) == Some(chain[k])
  {
    if k > 0 {
      FirstMatchAt(chain[1..], id, k - 1);
    }
  }

  /**
   * Appending at the tail never changes an existing match; the new entry is
   * found only when the chain held no entry with that id.
   */
  lemma {:induction false} FirstMatchAppend(chain: seq<Student>, s: Student, id: int32)
    ensures FirstMatch(chain + [s], id) ==
      if FirstMatch(chain, id).Some? then FirstMatch(chain, id)
      else if s.id == id then Some(s)
      else None
  {
    if chain != [] {
      assert (chain + [s])[1..] == chain[1..] + [s];
      FirstMatchAppend(chain[1..], s, id);
    }
  }

  /** `get(id)`: the first match in the chain of bucket `Hash(id)`. */
  function Lookup(b: seq<seq<Student>>, size: int32, id: int32): (r: Option<Student>)
    requires Addressable(id, size) && |b| == size as int
    ensures r.Some? ==> r.value.id == id && r.value in b[Hash(id, size)]
  {
    FirstMatch(b[Hash(id, size)], id)
  }

  /**
   * In a well-placed table, `get(id)` finds an entry exactly when some stored
   * student has that id, and whatever it returns is stored.
   */
  lemma {:induction false} LookupIff(b: seq<seq<Student>>, size: int32, id: int32)
    requires Addressable(id, size) && |b| == size as int && WellPlaced(b, size)
    ensures Lookup(b, size, id).Some? <==> exists s :: s in Flatten(b) && s.id == id
    ensures Lookup(b, size, id).Some? ==> Lookup(b, size, id).value in Flatten(b)
  {
    var h := Hash(id, size);
    var r := Lookup(b, size, id);
    if r.Some? {
      FlattenMember(b, r.value);
    }
    if s :| s in Flatten(b) && s.id == id {
      FlattenMember(b, s);
      var i :| 0 <= i < |b| && s in b[i];
      assert i == h;
      var j :| 0 <= j < |b[h]| && b[h][j] == s;
    }
  }

  /** `insert(s)`: `s` appended at the tail of the chain of bucket `Hash(s.id)`. */
  function Inserted(b: seq<seq<Student>>, size: int32, s: Student): (r: seq<seq<Student>>)
    requires Addressable(s.id, size) && |b| == size as int
    ensures |r| == |b|
  {
    b[Hash(s.id, size) := b[Hash(s.id, size)] + [s]]
  }

  /** Inserting keeps every student in the bucket its id hashes to. */
  lemma InsertedWellPlaced(b: seq<seq<Student>>, size: int32, s: Student)
    requires Addressable(s.id, size) && |b| == size as int && WellPlaced(b, size)
    ensures WellPlaced(Inserted(b, size, s), size)
  {
  }

  /** Inserting stores exactly one more student: `s` itself, duplicates included. */
  lemma {:induction false} InsertedContents(b: seq<seq<Student>>, size: int32, s: Student)
    requires Addressable(s.id, size) && |b| == size as int
    ensures multiset(Flatten(Inserted(b, size, s))) == multiset(Flatten(b)) + multiset{s}
    ensures |Flatten(Inserted(b, size, s))| == |Flatten(b)| + 1
  {
    AppendToBucket(b, Hash(s.id, size), s);
    var before, after := Flatten(b), Flatten(Inserted(b, size, s));
    assert |multiset(after)| == |multiset(before) + multiset{s}| == |multiset(before)| + 1;
  }

  lemma {:induction false} AppendToBucket(b: seq<seq<Student>>, h: int, s: Student)
    requires 0 <= h < |b|
    ensures multiset(Flatten(b[h := b[h] + [s]])) == multiset(Flatten(b)) + multiset{s}
  {
    var r, n := b[h := b[h] + [s]], |b| - 1;
    if h == n {
      assert r[..n] == b[..n];
    } else {
      assert r[..n] == b[..n][h := b[..n][h] + [s]];
      AppendToBucket(b[..n], h, s);
    }
  }

  /**
   * `get` after `insert(s)`: the lookup of `s.id` finds `s` unless an earlier
   * entry with that id shadows it; the lookup of every other id is unchanged.
   */
  lemma {:induction false} InsertedLookup(b: seq<seq<Student>>, size: int32, s: Student, id: int32)
    requires Addressable(s.id, size) && Addressable(id, size) && |b| == size as int
    ensures Lookup(Inserted(b, size, s), size, id) ==
      if id == s.id && Lookup(b, size, id).None? then Some(s) else Lookup(b, size, id)
  {
    if Hash(id, size) == Hash(s.id, size) {
      FirstMatchAppend(b[Hash(s.id, size)], s, id);
    }
  }

  /** Right after `insert(s)`, `get(s.id)` finds an entry with id `s.id`. */
  lemma InsertThenGet(b: seq<seq<Student>>, size: int32, s: Student)
    requires Addressable(s.id, size) && |b| == size as int
    ensures Lookup(Inserted(b, size, s), size, s.id).Some?
  {
    InsertedLookup(b, size, s, s.id);
  }

  /** One line of `print`: a student's id and the bucket it sits in. */
  datatype Line = Line(id: int32, position: int)

  /** The lines `print` emits for one chain sitting at bucket `position`. */
  function ChainLines(chain: seq<Student>, position: int): (r: seq<Line>)
    ensures |r| == |chain|
  {
    seq(|chain|, j requires 0 <= j < |chain| => Line(chain[j].id, position))
  }

  /** `print`: buckets in index order, each chain front to back. */
  function Traversal(b: seq<seq<Student>>): seq<Line> {
    if b == [] then [] else Traversal(b[..|b| - 1]) + ChainLines(b[|b| - 1], |b| - 1)
  }

  /** `print` emits the stored students' ids in the order of Flatten, one line each. */
  lemma {:induction false} TraversalIds(b: seq<seq<Student>>)
    ensures |Traversal(b)| == |Flatten(b)|
    ensures forall p :: 0 <= p < |Traversal(b)| ==> Traversal(b)[p].id == Flatten(b)[p].id
  {
    if b != [] {
      TraversalIds(b[..|b| - 1]);
    }
  }

  /**
   * `print` is bucket-major: positions never decrease along the output and
   * every position is a bucket index.
   */
  lemma {:induction false} TraversalBucketMajor(b: seq<seq<Student>>)
    ensures forall p, q :: 0 <= p <= q < |Traversal(b)| ==>
      0 <= Traversal(b)[p].position <= Traversal(b)[q].position < |b|
  {
    if b != [] {
      TraversalBucketMajor(b[..|b| - 1]);
    }
  }

  /** In a well-placed table, each line `print` emits names the bucket its id hashes to. */
  lemma {:induction false} TraversalPlacement(b: seq<seq<Student>>, size: int32)
    requires WellPlaced(b, size)
    ensures forall p :: 0 <= p < |Traversal(b)| ==>
      size > 0 && Hash(Traversal(b)[p].id, size) == Traversal(b)[p].position
  {
    if b != [] {
      var n := |b| - 1;
      var init: seq<seq<Student>> := b[..n];
      WellPlacedPrefix(b, size, n);
      TraversalPlacement(init, size);
      var m := |Traversal(init)|;
      assert Traversal(b) == Traversal(init) + ChainLines(b[n], n);
      forall p | 0 <= p < |Traversal(b)|
        ensures size > 0 && Hash(Traversal(b)[p].id, size) == Traversal(b)[p].position
      {
        if p >= m {
          assert Traversal(b)[p] == Line(b[n][p - m].id, n) && b[n][p - m] in b[n];
        } else {
          assert Traversal(b)[p] == Traversal(init)[p];
        }
      }
    } else {
      assert Traversal(b) == [];
    }
  }
}
