/** Machine integers of the target: bytes and little-endian 16- and 32-bit words. */
module Bytes {

  type Byte = x: int | 0 <= x < 0x100

  type Word = x: int | 0 <= x < 0x1_0000

  type DWord = x: int | 0 <= x < 0x1_0000_0000

  type Int16 = x: int | -0x8000 <= x < 0x8000

  /** The 16-bit two's complement value of an integer. */
  function Wrap(x: int): Int16 {
    var w := x % 0x1_0000;
    if w < 0x8000 then w else w - 0x1_0000
  }

  /** The bit pattern of a 16-bit number, read as unsigned. */
  function Pattern(x: Int16): (w: Word)
    ensures Wrap(w) == x
  {
    if x < 0 then x + 0x1_0000 else x
  }

  datatype Option<+T> = None | Some(value: T)

  /** The number in a sequence of bytes, low byte first. */
  function LittleEndian(bs: seq<Byte>): nat {
    if bs == [] then 0 else bs[0] + 0x100 * LittleEndian(bs[1..])
  }

  lemma TwoBytes(bs: seq<Byte>)
    requires |bs| == 2
    ensures var low: int, high: int := bs[0], bs[1]; LittleEndian(bs) == low + 0x100 * high < 0x1_0000
  {
    assert bs[1..][1..] == [];
    assert LittleEndian(bs[1..]) == bs[1] + 0x100 * LittleEndian([]);
  }

  /** The 16-bit word stored in two bytes, low byte first. */
  function ToWord(low: Byte, high: Byte): Word {
    TwoBytes([low, high]);
    LittleEndian([low, high])
  }

  function WordAt(s: seq<Byte>, i: nat): Word
    requires i + 2 <= |s|
  {
    ToWord(s[i], s[i + 1])
  }

  function WordBytes(w: Word): (s: seq<Byte>)
    ensures |s| == 2 && WordAt(s, 0) == w
  {
    TwoBytes([w % 0x100, w / 0x100]);
    [w % 0x100, w / 0x100]
  }

  lemma FourBytes(bs: seq<Byte>)
    requires |bs| == 4
    ensures LittleEndian(bs) == ToWord(bs[0], bs[1]) + 0x1_0000 * ToWord(bs[2], bs[3]) < 0x1_0000_0000
  {
    TwoBytes(bs[..2]);
    TwoBytes(bs[2..]);
    assert bs[..2] == [bs[0], bs[1]] && bs[2..] == [bs[2], bs[3]];
    assert bs[1..][1..] == bs[2..] && bs[2..][1..] == bs[3..] && bs[3..][1..] == [];
    assert LittleEndian(bs[3..]) == bs[3] + 0x100 * LittleEndian([]);
    assert LittleEndian(bs[2..]) == ToWord(bs[2], bs[3]);
    assert LittleEndian(bs[1..]) == bs[1] + 0x100 * LittleEndian(bs[2..]);
  }

  function DWordAt(s: seq<Byte>, i: nat): DWord
    requires i + 4 <= |s|
  {
    FourBytes(s[i..i + 4]);
    LittleEndian(s[i..i + 4])
  }

  function DWordBytes(d: DWord): (s: seq<Byte>)
    ensures |s| == 4 && DWordAt(s, 0) == d
  {
    var s := WordBytes(d % 0x1_0000) + WordBytes(d / 0x1_0000);
    assert s[0..4] == s;
    FourBytes(s);
    s
  }

  /** `s` with the bytes from `at` on replaced by `bs`, as memcpy does. */
  function Overwrite(s: seq<Byte>, at: nat, bs: seq<Byte>): (r: seq<Byte>)
    requires at + |bs| <= |s|
    ensures |r| == |s|
    ensures forall i :: 0 <= i < |s| ==> r[i] == if at <= i < at + |bs| then bs[i - at] else s[i]
  {
    s[..at] + bs + s[at + |bs|..]
  }

  /** The bytes `bs` lie at `p`. */
  predicate Here(s: seq<Byte>, p: nat, bs: seq<Byte>) {
    p + |bs| <= |s| && s[p..p + |bs|] == bs
  }

  lemma HereSplit(s: seq<Byte>, p: nat, a: seq<Byte>, b: seq<Byte>)
    requires Here(s, p, a + b)
    ensures Here(s, p, a) && Here(s, p + |a|, b)
  {
    assert s[p..p + |a|] == s[p..p + |a + b|][..|a|];
    assert s[p + |a|..p + |a| + |b|] == s[p..p + |a + b|][|a|..];
  }

  lemma HereJoin(s: seq<Byte>, p: nat, a: seq<Byte>, b: seq<Byte>)
    requires Here(s, p, a) && Here(s, p + |a|, b)
    ensures Here(s, p, a + b)
  {
    assert s[p..p + |a + b|] == s[p..p + |a|] + s[p + |a|..p + |a| + |b|];
  }

  lemma HereAt(s: seq<Byte>, p: nat, bs: seq<Byte>, i: nat)
    requires Here(s, p, bs) && i < |bs|
    ensures p + i < |s| && s[p + i] == bs[i]
  {
    assert s[p..p + |bs|][i] == s[p + i];
  }

  lemma HereFrame(s: seq<Byte>, s': seq<Byte>, p: nat, bs: seq<Byte>)
    requires Here(s, p, bs) && |s'| == |s| && forall i :: p <= i < p + |bs| ==> s'[i] == s[i]
    ensures Here(s', p, bs)
  {
    assert s'[p..p + |bs|] == s[p..p + |bs|];
  }

  lemma HereSlice(s: seq<Byte>, bs: seq<Byte>, i: nat, j: nat)
    requires Here(s, 0, bs) && i <= j <= |bs|
    ensures Here(s, i, bs[i..j])
  {
    hide Here;
    assert bs == bs[..j] + bs[j..] && bs[..j] == bs[..i] + bs[i..j];
    HereSplit(s, 0, bs[..j], bs[j..]);
    HereSplit(s, 0, bs[..i], bs[i..j]);
  }
}
