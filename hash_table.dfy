/**
 * The separate-chaining hash table of HashTable/main.cpp: a fixed number of
 * buckets, each the chain of students whose id hashes there, in insertion
 * order. A chain is a sequence here; the table never grows.
 */
module HashTables {
  import opened Students
  import opened Buckets

  class HashTable {
    /** The number of buckets, fixed at construction. */
    var size: int32
    /** One chain per bucket, head first. */
    var table: array<seq<Student>>

    /** Every bucket exists and every stored student sits in the bucket of its id. */
    ghost predicate Valid()
      reads this, table
    {
      table.Length == size as int && WellPlaced(table[..], size)
    }

    /** Every student stored in the table, bucket by bucket. */
    ghost function Contents(): multiset<Student>
      reads this, table
    {
      multiset(Flatten(table[..]))
    }

    /** A table of `size` buckets, all empty (C++ `new` rejects a negative length). */
    constructor (size: int32)
      requires size >= 0
      ensures Valid() && fresh(table)
      ensures this.size == size
      ensures forall i :: 0 <= i < table.Length ==> table[i] == []
      ensures Contents() == multiset{}
    {
      this.size := size;
      table := new seq<Student>[size as int];
      new;
      var i := 0;
      while i < size as int
        invariant 0 <= i <= size as int
        invariant this.size == size && table.Length == size as int && fresh(table)
        invariant forall k :: 0 <= k < i ==> table[k] == []
        modifies table
      {
        table[i] := [];
        i := i + 1;
      }
      assert table[..] == Empty(size);
      EmptyIsEmpty(size);
    }

    /**
     * Appends `s` at the tail of its bucket's chain and reports whether that
     * chain already held `MaxCollisionCount` students or more. Nothing acts on
     * the report: the table is never resized and duplicate ids are kept.
     */
    method Insert(s: Student) returns (shouldGrow: bool)
      requires Valid() && Addressable(s.id, size)
      modifies table
      ensures Valid() && size == old(size)
      ensures table[..] == Inserted(old(table[..]), size, s)
      ensures table[Hash(s.id, size)] == old(table[Hash(s.id, size)]) + [s]
      ensures forall i :: 0 <= i < table.Length && i != Hash(s.id, size) ==> table[i] == old(table[i])
      ensures shouldGrow <==> |old(table[Hash(s.id, size)])| >= MaxCollisionCount
      ensures Contents() == old(Contents()) + multiset{s}
      ensures |Contents()| == |old(Contents())| + 1
    {
      var location := Hash(s.id, size);
      var doesExist := table[location] != [];
      var collisionCount := 0;
      if !doesExist {
        table[location] := [s];
        assert old(table[location]) + [s] == [s];
      } else {
        // Walk to the node whose successor is absent, counting the nodes passed.
        collisionCount := 1;
        var chain := table[location];
        var current := 0;
        while current + 1 < |chain|
          invariant 0 <= current < |chain|
          invariant collisionCount == current + 1
        {
          current := current + 1;
          collisionCount := collisionCount + 1;
        }
        // Link the new node after `current`, the last one.
        table[location] := chain[..current + 1] + [s];
        assert chain[..current + 1] == chain;
      }
      assert table[..] == old(table[..])[location := old(table[location]) + [s]];
      shouldGrow := collisionCount >= MaxCollisionCount;
      InsertedWellPlaced(old(table[..]), size, s);
      InsertedContents(old(table[..]), size, s);
    }

    /**
     * The first student, in chain order, in bucket `Hash(id)` whose id is `id`,
     * or None when there is none.
     */
    method Get(id: int32) returns (r: Option<Student>)
      requires Valid() && Addressable(id, size)
      ensures r == Lookup(table[..], size, id)
      ensures r.Some? ==> r.value.id == id && r.value in Contents()
      ensures r.None? <==> forall t :: t in Contents() ==> t.id != id
    {
      LookupIff(table[..], size, id);
      var location := Hash(id, size);
      var chain := table[location];
      if chain == [] {
        return None;
      }
      var current := 0;
      while current < |chain|
        invariant 0 <= current <= |chain|
        invariant forall k :: 0 <= k < current ==> chain[k].id != id
      {
        if chain[current].id == id {
          FirstMatchAt(chain, id, current);
          return Some(chain[current]);
        }
        current := current + 1;
      }
      return None;
    }

    /**
     * The lines `print` writes: every bucket in index order, each chain front
     * to back, one (id, bucket) line per student.
     */
    method Print() returns (lines: seq<Line>)
      requires Valid()
      ensures lines == Traversal(table[..])
    {
      lines := [];
      var i := 0;
      while i < size as int
        invariant 0 <= i <= size as int
        invariant lines == Traversal(table[..i])
      {
        assert table[..i + 1][..i] == table[..i];
        if table[i] != [] {
          var chain := table[i];
          var current := 0;
          while current < |chain|
            invariant 0 <= current <= |chain|
            invariant lines == Traversal(table[..i]) + ChainLines(chain[..current], i)
          {
            assert ChainLines(chain[..current + 1], i) ==
              ChainLines(chain[..current], i) + [Line(chain[current].id, i)];
            lines := lines + [Line(chain[current].id, i)];
            current := current + 1;
          }
          assert chain[..current] == table[..i + 1][i];
        } else {
          assert ChainLines(table[i], i) == [];
        }
        i := i + 1;
      }
      assert table[..i] == table[..];
    }

    /** Empties every bucket and keeps the bucket count. */
    method Del()
      requires Valid()
      modifies table
      ensures Valid() && size == old(size)
      ensures table[..] == Empty(size)
      ensures Contents() == multiset{}
    {
      var i := 0;
      while i < size as int
        invariant 0 <= i <= size as int
        invariant forall k :: 0 <= k < i ==> table[k] == []
      {
        table[i] := [];
        i := i + 1;
      }
      assert table[..] == Empty(size);
      EmptyIsEmpty(size);
    }
  }
}
