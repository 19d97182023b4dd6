# Separate-chaining hash table of students

A model, in Dafny, of the hash table in `HashTable/main.cpp`. The table has a
fixed number of buckets (`size`). Each bucket holds a singly linked chain of
`Student` records (`id`, `age`). A student goes into bucket `id % size`, with
C++'s truncating `%`.

- `insert` appends the student at the tail of its chain. It returns `true`
  when that chain already held `maxCollisionCount = 3` nodes or more.
- `get` returns the first node of the key's chain whose id matches, or `NULL`.
- `print` writes one line per stored student: buckets in index order, each
  chain front to back.
- `del` empties every bucket and keeps the bucket count.

The file has no rehash, no delete-by-key and no duplicate check. The model
follows the code: `insert` never resizes the table, and a second student with
an id already present is stored after the first one.

Layout:

- `student.dfy` (module `Students`): the C++ `int` as `int32`, the `Student`
  value, and the `Option` that stands for a node pointer or `NULL`.
- `buckets.dfy` (module `Buckets`): the table's contents as a value, one
  sequence per bucket, head first. It defines the bucket function `Hash`, the
  placement invariant `WellPlaced`, and the functions that specify each
  operation (`Inserted`, `Lookup`, `Traversal`, `Empty`). The lemmas there
  state what each operation means.
- `hash_table.dfy` (module `HashTables`): class `HashTable`. Its fields are
  `size` and `table`, an `array<seq<Student>>` that the methods update in
  place. Each method's loop mirrors the source's loop, and its `ensures`
  ties the new state or the result to the functions of `Buckets`.

The class invariant `Valid()` says two things. The array has `size` buckets.
Every student stored in bucket `i` has `Hash(id, size) == i`. The constructor
establishes it, and `Insert` and `Del` preserve it.

`Insert` and `Get` require `Addressable(id, size)`, meaning `size > 0` and a
non-negative `Hash(id, size)`. Without it the source divides by zero or
indexes before the start of the array. `AddressableIff` proves that this
holds exactly for non-negative ids and for negative ids that are multiples of
`size`.

## Model

| member | source | states |
|---|---|---|
| `Buckets.Hash` | HashTable/main.cpp:32-34 | the bucket index is C++'s remainder: it has the sign of the key and its magnitude is below `size` |
| `Buckets.HashDivision` | HashTable/main.cpp:32-34 | `Hash` is the remainder that goes with C++'s truncating quotient: `(key / size) * size + Hash(key, size) == key` |
| `Buckets.HashOfNatural` | HashTable/main.cpp:32-34 | for a non-negative key the bucket is the ordinary `key % size`, which is a valid index |
| `Buckets.AddressableIff` | HashTable/main.cpp:32-34 | the index lands inside `[0, size)` exactly when the key is non-negative or a multiple of `size`; other negative keys give a negative index |
| `Buckets.EmptyIsEmpty` | HashTable/main.cpp:46-53 | a table of empty buckets satisfies the placement invariant and stores nothing |
| `Buckets.FirstMatch` | HashTable/main.cpp:94-104 | the chain scan returns a student of the chain with the requested id; it returns none exactly when no student of the chain has that id |
| `Buckets.FirstMatchAt` | HashTable/main.cpp:96-99 | the scan returns the entry at the lowest chain position with a matching id |
| `Buckets.FirstMatchAppend` | HashTable/main.cpp:72-80 | appending at the tail leaves an existing match in place; the new entry is found only when no earlier entry has its id |
| `Buckets.Lookup` | HashTable/main.cpp:86-105 | `get(id)` scans only bucket `Hash(id)`; whatever it returns has the requested id and sits in that bucket |
| `Buckets.LookupIff` | HashTable/main.cpp:86-105 | in a well-placed table, `get(id)` finds an entry exactly when some stored student has that id, and the entry it returns is stored |
| `Buckets.InsertedWellPlaced` | HashTable/main.cpp:55-81 | inserting keeps every stored student in the bucket its id hashes to |
| `Buckets.InsertedContents` | HashTable/main.cpp:55-81 | inserting stores exactly one more student, the inserted one, even when its id is already present |
| `Buckets.InsertedLookup` | HashTable/main.cpp:55-105 | after `insert(s)`, `get(s.id)` returns `s` if no earlier entry had that id and the earlier entry otherwise; `get` of every other id is unchanged |
| `Buckets.InsertThenGet` | HashTable/main.cpp:55-105 | right after `insert(s)`, `get(s.id)` finds an entry |
| `Buckets.TraversalIds` | HashTable/main.cpp:107-118 | `print` writes one line per stored student, with ids in bucket order and then chain order |
| `Buckets.TraversalBucketMajor` | HashTable/main.cpp:107-118 | the bucket positions `print` writes never decrease, and each is a bucket index |
| `Buckets.TraversalPlacement` | HashTable/main.cpp:107-118 | in a well-placed table, each printed position is the hash of the printed id |
| `HashTables.HashTable.constructor` | HashTable/main.cpp:46-53 | for `size >= 0`, builds a valid table with `size` buckets, every one empty and nothing stored |
| `HashTables.HashTable.Insert` | HashTable/main.cpp:55-84 | appends `s` at the tail of bucket `Hash(s.id)` and leaves every other bucket unchanged; returns true exactly when that chain held 3 or more students before; the stored multiset gains exactly `s`; the table stays valid |
| `HashTables.HashTable.Get` | HashTable/main.cpp:86-105 | returns the first match in bucket `Hash(id)`; it returns none exactly when no stored student has the id; changes nothing |
| `HashTables.HashTable.Print` | HashTable/main.cpp:107-118 | returns exactly the lines of `Traversal`: buckets in index order, each chain front to back |
| `HashTables.HashTable.Del` | HashTable/main.cpp:120-125 | leaves every one of the `size` buckets empty and nothing stored, and `size` unchanged; the result depends only on `size`, so a second call changes nothing |

## Left out

- `main` (HashTable/main.cpp:128-148) is a fixed demonstration driver. It has no logic of its own.
- Console output: `Print` returns the `(id, position)` lines that `print` would write instead of writing them.
- Memory management is not modelled: `new`, `delete` and the recursive `deleteLL` teardown (HashTable/main.cpp:36-43). `Del` resets each bucket to the empty chain. The source's `deleteLL` frees the nodes but not the students they point to. The model has no counterpart for that leak.
- Node pointers and aliasing are not modelled. A chain is a sequence of student values. `Get` returns the student (or `None`) rather than a pointer to its node. A caller that changes a `Student` it inserted would change the table's entry in the source; here students are immutable values.
- `Insert`: the collision counter is an unbounded integer. The source's `int` counter could overflow only on a chain of more than 2^31 nodes.
- `HashTables.HashTable.constructor` requires `size >= 0`. On a negative size the source's `new Node * [size]` (HashTable/main.cpp:48) throws `std::bad_array_new_length`; the model does not capture that error path.
- `Insert` and `Get` require `Addressable(id, size)`. On other inputs the source divides by zero (`size == 0`) or indexes before the array (a negative remainder), which is undefined behaviour.
- Rehash on long chains, delete-by-key and duplicate-id rejection: `HashTable/main.cpp` has none of them.
