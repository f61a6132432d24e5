/** Byte memory that is written in place. */
module Memory {
  import opened Common

  ghost predicate SameOutside(before: bytes, after: bytes, from: nat, to: nat) {
    |before| == |after| && forall i :: 0 <= i < |before| && !(from <= i < to) ==> after[i] == before[i]
  }

  /** memcpy. */
  method WriteBytes(mem: array<byte>, at: nat, text: bytes)
    requires at + |text| <= mem.Length
    modifies mem
    ensures mem[at..at + |text|] == text
    ensures forall i :: 0 <= i < mem.Length && !(at <= i < at + |text|) ==> mem[i] == old(mem[i])
  {
    var i := 0;
    while i < |text|
      invariant 0 <= i <= |text| && mem[at..at + i] == text[..i]
      invariant forall j :: 0 <= j < mem.Length && !(at <= j < at + i) ==> mem[j] == old(mem[j])
    {
      mem[at + i] := text[i];
      assert mem[at..at + i + 1] == mem[at..at + i] + [text[i]];
      i := i + 1;
    }
    assert text[..|text|] == text;
  }
}
