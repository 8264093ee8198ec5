/** Machine words, bytes, optional values and the copy routine that several components share. */
module Common {
  const DWORD: int := 0x1_0000_0000
  const QWORD: int := 0x1_0000_0000_0000_0000

  newtype Byte = b: int | 0 <= b < 0x100

  datatype Option<T> = None | Some(value: T)

  lemma Associative<T>(x: seq<T>, y: seq<T>, z: seq<T>)
    ensures x + y + z == x + (y + z)
  {}

  method CopyMem<T>(dst: array<T>, at: nat, src: seq<T>, from: nat, len: nat)
    requires at + len <= dst.Length && from + len <= |src|
    modifies dst
    ensures dst[..] == old(dst[..at]) + src[from..from + len] + old(dst[at + len..])
  {
    var i := 0;
    while i < len
      invariant 0 <= i <= len
      invariant forall j | 0 <= j < at :: dst[j] == old(dst[j])
      invariant forall j | at <= j < at + i :: dst[j] == src[from + j - at]
      invariant forall j | at + i <= j < dst.Length :: dst[j] == old(dst[j])
    {
      dst[at + i] := src[from + i];
      i := i + 1;
    }
  }
}
