/** `FileBlock`: one indexed chunk of the file (Archiver.Core/Common/FileBlock.cs). */
module FileBlocks {
  import opened Bytes

  /** `Index`, `Size` and `Data` are the readonly fields of the source class. */
  datatype FileBlock = FileBlock(index: int32, size: int32, data: seq<byte>) {
    /** What the constructor establishes: `Size` is the payload length. */
    predicate Valid() {
      size == |data|
    }
  }

  /** The constructor `FileBlock(index, data)`: `Size` is taken from `data`. */
  function NewBlock(index: int32, data: seq<byte>): (b: FileBlock)
    requires |data| <= INT32_MAX
    ensures b.Valid()
    ensures b.index == index && b.data == data && b.size == |data|
  {
    FileBlock(index, |data|, data)
  }

  /** The payloads of `blocks`, one after another. */
  function Payloads(blocks: seq<FileBlock>): (r: seq<byte>)
  {
    if blocks == [] then [] else blocks[0].data + Payloads(blocks[1..])
  }

  lemma {:induction false} PayloadsAppend(a: seq<FileBlock>, b: seq<FileBlock>)
    ensures Payloads(a + b) == Payloads(a) + Payloads(b)
  {
    if a != [] {
      assert (a + b)[0] == a[0] && (a + b)[1..] == a[1..] + b;
      PayloadsAppend(a[1..], b);
    } else {
      assert a + b == b;
    }
  }

  function DigitChar(d: int): (c: char)
    requires 0 <= d < 10
    ensures '0' <= c <= '9' && c as int - '0' as int == d
  {
    ('0' as int + d) as char
  }

  predicate IsDigits(s: string) {
    forall i :: 0 <= i < |s| ==> '0' <= s[i] <= '9'
  }

  /** `n` in decimal, without leading zeros (`Int32.ToString()` of a non-negative value). */
  function NatToDecimal(n: nat): (s: string)
    ensures |s| >= 1 && IsDigits(s)
    ensures s[0] == '0' ==> n == 0
  {
    if n < 10 then [DigitChar(n)] else NatToDecimal(n / 10) + [DigitChar(n % 10)]
  }

  /** The number a string of decimal digits denotes. */
  function DecimalValue(s: string): nat
    requires IsDigits(s)
  {
    if s == [] then 0 else 10 * DecimalValue(s[..|s| - 1]) + (s[|s| - 1] as int - '0' as int)
  }

  /** The decimal rendering loses nothing: it reads back as the same number. */
  lemma {:induction false} DecimalValueOfNatToDecimal(n: nat)
    ensures DecimalValue(NatToDecimal(n)) == n
  {
    var s := NatToDecimal(n);
    if n >= 10 {
      DecimalValueOfNatToDecimal(n / 10);
      assert s[..|s| - 1] == NatToDecimal(n / 10);
    }
  }

  /** `Int32.ToString()`: a minus sign before the magnitude of a negative value. */
  function IntToDecimal(v: int): (s: string)
    ensures |s| >= 1
    ensures v < 0 <==> s[0] == '-'
  {
    if v < 0 then "-" + NatToDecimal(-v) else NatToDecimal(v)
  }

  const OPENING: string := "{Block | Index: "
  const SEPARATOR: string := "; Size: "

  /** `ToString()`: `{Block | Index: i; Size: s}`, both numbers in decimal. */
  function ToString(b: FileBlock): (s: string)
    ensures |s| == |OPENING| + |IntToDecimal(b.index)| + |SEPARATOR| + |IntToDecimal(b.size)| + 1
    ensures s[..|OPENING|] == OPENING && s[|s| - 1] == '}'
    ensures s[|OPENING|..|OPENING| + |IntToDecimal(b.index)|] == IntToDecimal(b.index)
    ensures s[|OPENING| + |IntToDecimal(b.index)|..|s| - 1 - |IntToDecimal(b.size)|] == SEPARATOR
    ensures s[|s| - 1 - |IntToDecimal(b.size)|..|s| - 1] == IntToDecimal(b.size)
  {
    var index, size := IntToDecimal(b.index), IntToDecimal(b.size);
    var s := OPENING + index + SEPARATOR + size + "}";
    assert s[..|OPENING|] == OPENING;
    assert s[|OPENING|..|OPENING| + |index|] == index;
    assert s[|OPENING| + |index|..|s| - 1 - |size|] == SEPARATOR;
    assert s[|s| - 1 - |size|..|s| - 1] == size;
    s
  }
}
