/** The flat root directory: 32-byte slots, the lookup order, and the listing order. */
module Directory {
  import opened Bytes
  import opened Volumes
  import opened Names

  const FREE_MARK: Byte := 0xe5
  const ATTRIBUTES_AT := 11
  const CLUSTER_AT := 26
  const SIZE_AT := 28

  /** Never used; so is everything after it. */
  predicate IsEnd(s: Slot) {
    s[0] == 0
  }

  predicate IsFree(s: Slot) {
    s[0] == FREE_MARK
  }

  /** Bits 3 and 4 of the attributes mark volume labels and directories. */
  predicate IsFile(s: Slot) {
    !IsEnd(s) && !IsFree(s) && s[ATTRIBUTES_AT] / 8 % 4 == 0
  }

  function NameOf(s: Slot): Name {
    Unpack(s)
  }

  function StartOf(s: Slot): Word {
    WordAt(s, CLUSTER_AT)
  }

  function SizeOf(s: Slot): DWord {
    DWordAt(s, SIZE_AT)
  }

  predicate Matches(s: Slot, name: Name) {
    IsFile(s) && NameOf(s) == name
  }

  /** The slot of the first file called `name`, looking from `k` up to the first never-used slot. */
  function LookupFrom(dir: seq<Slot>, name: Name, k: nat): (r: Option<nat>)
    requires k <= |dir|
    ensures r.Some? ==> k <= r.value < |dir| && Matches(dir[r.value], name)
    decreases |dir| - k
  {
    if k == |dir| || IsEnd(dir[k]) then None
    else if Matches(dir[k], name) then Some(k)
    else LookupFrom(dir, name, k + 1)
  }

  function Lookup(dir: seq<Slot>, name: Name): (r: Option<nat>)
    ensures r.Some? ==> r.value < |dir| && Matches(dir[r.value], name)
  {
    LookupFrom(dir, name, 0)
  }

  /** A lookup can stop inside the directory: there is a match or a never-used slot. */
  ghost predicate LookupEnds(dir: seq<Slot>, name: Name) {
    exists k :: 0 <= k < |dir| && (IsEnd(dir[k]) || Matches(dir[k], name))
  }

  ghost predicate HasEnd(dir: seq<Slot>) {
    exists k :: 0 <= k < |dir| && IsEnd(dir[k])
  }

  /** What every operation keeps: an end slot, no file beyond an end slot, distinct names. */
  ghost predicate DirectoryOk(dir: seq<Slot>) {
    && HasEnd(dir)
    && (forall j, k :: 0 <= j < k < |dir| && IsEnd(dir[j]) ==> !IsFile(dir[k]))
    && (forall j, k :: 0 <= j < k < |dir| && IsFile(dir[j]) && IsFile(dir[k]) ==> NameOf(dir[j]) != NameOf(dir[k]))
  }

  predicate FileAt(dir: seq<Slot>, k: int) {
    0 <= k < |dir| && IsFile(dir[k])
  }

  lemma {:induction false} LookupFromExact(dir: seq<Slot>, name: Name, k: nat, i: nat)
    requires DirectoryOk(dir) && i <= |dir|
    requires forall j :: 0 <= j < i ==> !IsEnd(dir[j]) && !Matches(dir[j], name)
    ensures LookupFrom(dir, name, i) == Some(k) <==> k < |dir| && Matches(dir[k], name)
    decreases |dir| - i
  {
    if i < |dir| && !IsEnd(dir[i]) && !Matches(dir[i], name) {
      LookupFromExact(dir, name, k, i + 1);
    }
  }

  /** On a well-formed directory the lookup finds a file exactly where it is. */
  lemma LookupExact(dir: seq<Slot>, name: Name, k: nat)
    requires DirectoryOk(dir)
    ensures Lookup(dir, name) == Some(k) <==> k < |dir| && Matches(dir[k], name)
  {
    LookupFromExact(dir, name, k, 0);
  }

  /** The slot a new file goes to: the first one never used or marked free. */
  function FirstUnusedFrom(dir: seq<Slot>, k: nat): (r: nat)
    requires k <= |dir|
    ensures k <= r <= |dir|
    ensures r < |dir| ==> IsEnd(dir[r]) || IsFree(dir[r])
    ensures forall j :: k <= j < r ==> !IsEnd(dir[j]) && !IsFree(dir[j])
    decreases |dir| - k
  {
    if k == |dir| || IsEnd(dir[k]) || IsFree(dir[k]) then k else FirstUnusedFrom(dir, k + 1)
  }

  function FirstUnused(dir: seq<Slot>): (r: nat)
    ensures r <= |dir|
    ensures r < |dir| ==> IsEnd(dir[r]) || IsFree(dir[r])
    ensures forall j :: 0 <= j < r ==> !IsEnd(dir[j]) && !IsFree(dir[j])
  {
    FirstUnusedFrom(dir, 0)
  }

  /** A slot can be filled and still leave a never-used one. */
  ghost predicate HasSpareSlot(dir: seq<Slot>) {
    exists k :: FirstUnused(dir) < k < |dir| && IsEnd(dir[k])
  }

  /** Filling the first unused slot with a newly named file keeps the directory well formed
      exactly when the name is new and a never-used slot remains. */
  lemma AddKeepsDirectory(dir: seq<Slot>, s: Slot)
    requires DirectoryOk(dir) && IsFile(s)
    ensures FirstUnused(dir) < |dir|
    ensures DirectoryOk(dir[FirstUnused(dir) := s])
            <==> HasSpareSlot(dir) && (forall k :: FileAt(dir, k) ==> NameOf(dir[k]) != NameOf(s))
  {
    var u := FirstUnused(dir);
    var dir' := dir[u := s];
    if DirectoryOk(dir') {
      var e :| 0 <= e < |dir'| && IsEnd(dir'[e]);
      assert u < e && IsEnd(dir[e]);
      forall k | FileAt(dir, k) ensures NameOf(dir[k]) != NameOf(s) {
        assert dir'[k] == dir[k] && dir'[u] == s;
      }
    } else if HasSpareSlot(dir) && (forall k :: FileAt(dir, k) ==> NameOf(dir[k]) != NameOf(s)) {
      var e :| u < e < |dir| && IsEnd(dir[e]);
      assert IsEnd(dir'[e]);
      forall j, k | 0 <= j < k < |dir'| && IsFile(dir'[j]) && IsFile(dir'[k])
        ensures NameOf(dir'[j]) != NameOf(dir'[k])
      {
        assert k != u ==> FileAt(dir, k);
        assert j != u ==> FileAt(dir, j);
      }
    }
  }

  /** The slot with its first byte replaced by the free mark. */
  function Freed(s: Slot): (r: Slot)
    ensures IsFree(r)
  {
    Overwrite(s, 0, [FREE_MARK])
  }

  lemma RemoveKeepsDirectory(dir: seq<Slot>, k: nat)
    requires DirectoryOk(dir) && FileAt(dir, k)
    ensures DirectoryOk(dir[k := Freed(dir[k])])
  {
    var dir' := dir[k := Freed(dir[k])];
    var e :| 0 <= e < |dir| && IsEnd(dir[e]);
    assert IsEnd(dir'[e]);
  }

  /** The slot with the recorded size replaced. */
  function Resized(s: Slot, size: DWord): (r: Slot)
    ensures SizeOf(r) == size
    ensures NameOf(r) == NameOf(s) && StartOf(r) == StartOf(s) && (IsFile(r) <==> IsFile(s)) && (IsEnd(r) <==> IsEnd(s))
  {
    var bs := DWordBytes(size);
    var r := Overwrite(s, SIZE_AT, bs);
    assert r[SIZE_AT..SIZE_AT + 4] == bs[0..4];
    assert r[..BASE_MAX] == s[..BASE_MAX];
    assert r[BASE_MAX..RAW_BYTES] == s[BASE_MAX..RAW_BYTES];
    r
  }

  lemma ResizeKeepsDirectory(dir: seq<Slot>, k: nat, size: DWord)
    requires DirectoryOk(dir) && FileAt(dir, k)
    ensures DirectoryOk(dir[k := Resized(dir[k], size)])
  {
    var dir' := dir[k := Resized(dir[k], size)];
    var e :| 0 <= e < |dir| && IsEnd(dir[e]);
    assert IsEnd(dir'[e]);
  }

  /** The creation date of every file: 1980-01-01. */
  const EPOCH_DATE: Word := 0x0021

  /** The slot written for a new, empty file. */
  function NewSlot(name: Name, cluster: Word): (s: Slot)
    requires DOT in name
    ensures StartOf(s) == cluster && SizeOf(s) == 0
    ensures s[..RAW_BYTES] == Pack(name)
    ensures s[ATTRIBUTES_AT] == 0
  {
    var s := Pack(name) + [0, 0, 0, 0, 0] + WordBytes(EPOCH_DATE) + seq(8, _ => 0) + WordBytes(cluster) + seq(4, _ => 0);
    assert s[SIZE_AT..SIZE_AT + 4] == [0, 0, 0, 0];
    FourBytes([0, 0, 0, 0]);
    s
  }

  lemma NewSlotIsFile(name: Name, cluster: Word)
    requires Valid83(name) && 0 !in name && name[0] != FREE_MARK
    ensures IsFile(NewSlot(name, cluster)) && NameOf(NewSlot(name, cluster)) == name
  {
    var s := NewSlot(name, cluster);
    PackRoundTrip(name);
    assert s[..RAW_BYTES][..BASE_MAX] == s[..BASE_MAX];
    assert s[..RAW_BYTES][BASE_MAX..RAW_BYTES] == s[BASE_MAX..RAW_BYTES];
    assert s[0] == Pack(name)[0];
  }

  /** The new slot is a file, under whichever name, exactly where the name does not start with the free mark. */
  lemma NewSlotIsLive(name: Name, cluster: Word)
    requires DOT in name && 0 !in name
    ensures IsFile(NewSlot(name, cluster)) <==> name[0] != FREE_MARK
  {
    var s := NewSlot(name, cluster);
    assert s[0] == s[..RAW_BYTES][0] == Pack(name)[0];
  }

  // ----- Listing -----

  /** The file slots in listing order: from `k` up to the first never-used slot. */
  function ListingFrom(dir: seq<Slot>, k: nat): (r: seq<nat>)
    requires k <= |dir|
    ensures forall i :: 0 <= i < |r| ==> k <= r[i] < |dir| && IsFile(dir[r[i]])
    ensures forall i, j :: 0 <= i < j < |r| ==> r[i] < r[j]
    decreases |dir| - k
  {
    if k == |dir| || IsEnd(dir[k]) then []
    else (if IsFile(dir[k]) then [k] else []) + ListingFrom(dir, k + 1)
  }

  function Listing(dir: seq<Slot>): (r: seq<nat>)
    ensures forall i :: 0 <= i < |r| ==> r[i] < |dir| && IsFile(dir[r[i]])
    ensures forall i, j :: 0 <= i < j < |r| ==> r[i] < r[j]
  {
    ListingFrom(dir, 0)
  }

  lemma {:induction false} ListingFromComplete(dir: seq<Slot>, i: nat, k: nat)
    requires DirectoryOk(dir) && i <= k && FileAt(dir, k)
    requires forall j :: 0 <= j < i ==> !IsEnd(dir[j])
    ensures k in ListingFrom(dir, i)
    decreases k - i
  {
    if i < k {
      ListingFromComplete(dir, i + 1, k);
    }
  }

  /** The listing names every file once, and looking up a listed name leads back to its slot. */
  lemma ListingAgrees(dir: seq<Slot>)
    requires DirectoryOk(dir)
    ensures forall k :: k in Listing(dir) <==> FileAt(dir, k)
    ensures forall i :: 0 <= i < |Listing(dir)| ==>
              Lookup(dir, NameOf(dir[Listing(dir)[i]])) == Some(Listing(dir)[i])
  {
    forall k | FileAt(dir, k) ensures k in Listing(dir) {
      ListingFromComplete(dir, 0, k);
    }
    forall i | 0 <= i < |Listing(dir)|
      ensures Lookup(dir, NameOf(dir[Listing(dir)[i]])) == Some(Listing(dir)[i])
    {
      LookupExact(dir, NameOf(dir[Listing(dir)[i]]), Listing(dir)[i]);
    }
  }

  /** A file whose name has no lower case is found under any casing of its name. */
  lemma FoundUnderAnyCasing(dir: seq<Slot>, k: nat, f: Name)
    requires DirectoryOk(dir) && FileAt(dir, k) && !HasLowerCase(NameOf(dir[k]))
    requires SameUpToCase(NameOf(dir[k]), FirstTwelve(f))
    ensures Lookup(dir, Canonical(f)) == Some(k)
  {
    hide IsFile, NameOf;
    var name := NameOf(dir[k]);
    assert FirstTwelve(name) == name;
    CanonicalEqual(name, f);
    assert SameUpToCase(name, name);
    CanonicalUnique(name, name);
    LookupExact(dir, name, k);
  }
}
