/** File contents and request bodies. */
module ByteStrings {
  type Bytes = seq<bv8>
}
