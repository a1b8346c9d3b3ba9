/** 8.3 file names: the padded form in a directory slot and the dotted form users see. */
module Names {
  import opened Bytes

  const SPACE: Byte := 0x20
  const DOT: Byte := 0x2e
  const BASE_MAX := 8
  const EXT_MAX := 3
  const RAW_BYTES := 11
  const NAME_BUF := 13
  const NAME_MAX := 12

  /** A file name without its terminating NUL. */
  type Name = seq<Byte>

  /** The first position holding `b`, or the length. */
  function IndexOf(s: seq<Byte>, b: Byte): (i: nat)
    ensures i <= |s|
    ensures i < |s| ==> s[i] == b
    ensures forall j :: 0 <= j < i ==> s[j] != b
  {
    if s == [] || s[0] == b then 0 else 1 + IndexOf(s[1..], b)
  }

  lemma IndexOfUnique(s: seq<Byte>, b: Byte, i: nat)
    requires i <= |s|
    requires i < |s| ==> s[i] == b
    requires forall j :: 0 <= j < i ==> s[j] != b
    ensures IndexOf(s, b) == i
  {
  }

  function UpTo(s: seq<Byte>, b: Byte): (r: seq<Byte>)
    ensures |r| <= |s| && b !in r
  {
    s[..IndexOf(s, b)]
  }

  /** The C string held in a buffer. */
  function CString(buf: seq<Byte>): seq<Byte> {
    UpTo(buf, 0)
  }

  /** What follows the terminating NUL does not matter. */
  lemma CStringEnds(s: seq<Byte>, rest: seq<Byte>)
    ensures CString(s + [0] + rest) == CString(s)
  {
    var buf, i := s + [0] + rest, IndexOf(s, 0);
    assert forall j :: 0 <= j <= |s| ==> buf[j] == if j < |s| then s[j] else 0;
    IndexOfUnique(buf, 0, i);
    assert buf[..i] == s[..i];
  }

  /** The dotted name of a padded one. */
  function Unpack(raw: seq<Byte>): Name
    requires RAW_BYTES <= |raw|
  {
    CString(UpTo(raw[..BASE_MAX], SPACE) + [DOT] + UpTo(raw[BASE_MAX..RAW_BYTES], SPACE))
  }

  /** The first `n` bytes of `s`, padded with spaces to exactly `n`. */
  function Pad(s: seq<Byte>, n: nat): (r: seq<Byte>)
    ensures |r| == n
  {
    if |s| < n then s + seq(n - |s|, _ => SPACE) else s[..n]
  }

  function Base(name: Name): Name {
    UpTo(name, DOT)
  }

  function Extension(name: Name): Name
    requires DOT in name
  {
    name[IndexOf(name, DOT) + 1..]
  }

  /** The padded name stored for a dotted one. */
  function Pack(name: Name): (raw: seq<Byte>)
    requires DOT in name
    ensures |raw| == RAW_BYTES
  {
    Pad(Base(name), BASE_MAX) + Pad(Extension(name), EXT_MAX)
  }

  /** The names that survive being stored: 8.3, without spaces. */
  predicate Valid83(name: Name) {
    && DOT in name
    && |Base(name)| <= BASE_MAX && SPACE !in Base(name)
    && |Extension(name)| <= EXT_MAX && SPACE !in Extension(name)
  }

  lemma UpToPad(s: seq<Byte>, n: nat)
    ensures UpTo(Pad(s, n), SPACE) == s <==> |s| <= n && SPACE !in s
    ensures UpTo(Pad(s, n), SPACE) <= s
  {
    var p := Pad(s, n);
    if |s| < n {
      assert p[|s|] == SPACE;
    }
    if |s| <= n && SPACE !in s {
      IndexOfUnique(p, SPACE, |s|);
    }
  }

  lemma SplitAtDot(name: Name)
    requires DOT in name
    ensures name == Base(name) + [DOT] + Extension(name)
    ensures DOT !in Base(name)
  {
  }

  /** Storing a name and reading it back gives the same name exactly for the valid ones. */
  lemma PackRoundTrip(name: Name)
    requires DOT in name && 0 !in name
    ensures Unpack(Pack(name)) == name <==> Valid83(name)
  {
    var raw := Pack(name);
    assert raw[..BASE_MAX] == Pad(Base(name), BASE_MAX);
    assert raw[BASE_MAX..RAW_BYTES] == Pad(Extension(name), EXT_MAX);
    var base, ext := UpTo(raw[..BASE_MAX], SPACE), UpTo(raw[BASE_MAX..RAW_BYTES], SPACE);
    UpToPad(Base(name), BASE_MAX);
    UpToPad(Extension(name), EXT_MAX);
    SplitAtDot(name);
    var dotted := base + [DOT] + ext;
    assert 0 !in dotted by {
      assert forall b :: b in base ==> b in Base(name);
      assert forall b :: b in ext ==> b in Extension(name);
    }
    IndexOfUnique(dotted, 0, |dotted|);
    assert dotted[..|dotted|] == dotted;
    if dotted == name {
      IndexOfUnique(dotted, DOT, |base|);
      assert base == Base(name);
      assert ext == dotted[|base| + 1..] == Extension(name);
    }
  }

  /** ABCDEFGHI. has one letter too many, and is read back without it. */
  lemma NineLetters()
    ensures var name := [65, 66, 67, 68, 69, 70, 71, 72, 73, DOT];
            !Valid83(name) && Unpack(Pack(name)) == name[..BASE_MAX] + [DOT]
  {
    var name := [65, 66, 67, 68, 69, 70, 71, 72, 73, DOT];
    IndexOfUnique(name, DOT, 9);
    assert Base(name) == name[..9] && Extension(name) == [];
    var raw := Pack(name);
    assert raw[..BASE_MAX] == name[..BASE_MAX] && raw[BASE_MAX..RAW_BYTES] == seq(EXT_MAX, _ => SPACE);
    IndexOfUnique(raw[..BASE_MAX], SPACE, BASE_MAX);
    IndexOfUnique(raw[BASE_MAX..RAW_BYTES], SPACE, 0);
    var dotted := name[..BASE_MAX] + [DOT] + [];
    IndexOfUnique(dotted, 0, |dotted|);
    assert dotted[..|dotted|] == dotted;
  }

  /** Distinct valid names are stored differently. */
  lemma PackInjective(n1: Name, n2: Name)
    requires Valid83(n1) && Valid83(n2) && 0 !in n1 && 0 !in n2
    ensures Pack(n1) == Pack(n2) <==> n1 == n2
  {
    PackRoundTrip(n1);
    PackRoundTrip(n2);
  }

  function Upper(b: Byte): Byte {
    if 'a' as int <= b <= 'z' as int then b - 0x20 else b
  }

  function UpperAll(s: seq<Byte>): (r: seq<Byte>)
    ensures |r| == |s|
    ensures forall i :: 0 <= i < |s| ==> r[i] == Upper(s[i])
  {
    seq(|s|, i requires 0 <= i < |s| => Upper(s[i]))
  }

  /** The name under which a request is looked up: at most twelve characters, upper case. */
  function Canonical(filename: Name): (r: Name)
    ensures |r| <= NAME_MAX
  {
    UpperAll(if |filename| <= NAME_MAX then filename else filename[..NAME_MAX])
  }

  // ----- Upper and lower case -----

  /** The same character, but for case: equal, or a letter and its capital, 32 below it. */
  predicate SameLetter(a: Byte, b: Byte) {
    || a == b
    || (97 <= a <= 122 && b + 32 == a)
    || (97 <= b <= 122 && a + 32 == b)
  }

  predicate SameUpToCase(s: seq<Byte>, t: seq<Byte>) {
    |s| == |t| && forall i :: 0 <= i < |s| ==> SameLetter(s[i], t[i])
  }

  predicate HasLowerCase(s: seq<Byte>) {
    exists i :: 0 <= i < |s| && 97 <= s[i] <= 122
  }

  /** The part of a request that counts: its first twelve characters. */
  function FirstTwelve(s: seq<Byte>): seq<Byte> {
    if |s| <= 12 then s else s[..12]
  }

  /** The canonical form has no lower case, and is the request's first twelve characters up to case. */
  lemma CanonicalForm(f: Name)
    ensures !HasLowerCase(Canonical(f)) && SameUpToCase(Canonical(f), FirstTwelve(f))
    ensures forall i :: 0 <= i < |FirstTwelve(f)| && !(97 <= f[i] <= 122) ==> Canonical(f)[i] == f[i]
  {
  }

  /** There is only one such form. */
  lemma CanonicalUnique(f: Name, n: Name)
    requires !HasLowerCase(n) && SameUpToCase(n, FirstTwelve(f))
    requires forall i :: 0 <= i < |FirstTwelve(f)| && !(97 <= f[i] <= 122) ==> n[i] == f[i]
    ensures n == Canonical(f)
  {
    CanonicalForm(f);
    forall i | 0 <= i < |n| ensures n[i] == Canonical(f)[i] {
      assert SameLetter(n[i], FirstTwelve(f)[i]);
      assert !(97 <= n[i] <= 122);
    }
  }

  lemma CanonicalTwice(f: Name)
    ensures Canonical(Canonical(f)) == Canonical(f)
  {
    CanonicalForm(f);
    assert FirstTwelve(Canonical(f)) == Canonical(f);
    CanonicalUnique(Canonical(f), Canonical(f));
  }

  /** Two requests name the same file exactly when their first twelve characters agree up to case. */
  lemma CanonicalEqual(f: Name, h: Name)
    ensures Canonical(f) == Canonical(h) <==> SameUpToCase(FirstTwelve(f), FirstTwelve(h))
  {
    var s, t := FirstTwelve(f), FirstTwelve(h);
    if Canonical(f) == Canonical(h) {
      forall i | 0 <= i < |s| ensures SameLetter(s[i], t[i]) {
        assert Upper(s[i]) == Canonical(f)[i] == Canonical(h)[i] == Upper(t[i]);
      }
    }
    if SameUpToCase(s, t) {
      forall i | 0 <= i < |s| ensures Canonical(f)[i] == Canonical(h)[i] {
        assert SameLetter(s[i], t[i]);
      }
    }
  }
}
