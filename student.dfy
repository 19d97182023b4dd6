/** The values stored in the table: students with a C++ `int` id and age. */
module Students {

  /** The source's `int`: a 32-bit two's-complement integer. */
  newtype int32 = x: int | -0x8000_0000 <= x < 0x8000_0000

  /** A student record. `id` is the key; `age` is a payload the table never inspects. */
  datatype Student = Student(id: int32, age: int32)

  /** The result of a lookup: the C++ code returns a node pointer or NULL. */
  datatype Option<T> = None | Some(value: T)
}
