/** The `Item` entity of the `item` table (data/Item.kt). */
module Items {

  /** Kotlin's `Int`: a 32-bit two's-complement integer. */
  type Int32 = x: int | -0x8000_0000 <= x < 0x8000_0000

  /** The default `id` of a new `Item`. With `autoGenerate = true`, Room binds
      this value as NULL, so the database assigns the key. */
  const UnassignedId: int := 0

  /** One row of the table. The price is carried through unchanged and never
      computed on, so its type is a parameter. The key is read back as a SQLite
      rowid and kept unbounded here. */
  datatype Item<P> = Item(id: int, name: string, price: P, quantity: Int32)
}
