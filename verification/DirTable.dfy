/** A directory table of ff.c (without long names) as a sequence of 32-byte entries, and what registering and removing
    an entry do to the names it resolves. */
module DirTable {
  import opened FatCodec

  datatype Option<T> = None | Some(value: T)

  type Entry = e: seq<Byte> | |e| == 32 witness seq(32, _ => 0)

  /** An 11-byte name which is not taken for a free entry. */
  predicate IsName(name: seq<Byte>) {
    |name| == 11 && name[0] != 0 && name[0] != 0xE5
  }

  /** dir_alloc takes the entry for free: deleted, or never used. */
  predicate Free(e: Entry) {
    e[0] == 0xE5 || e[0] == 0
  }

  /** dir_find accepts the entry: not a volume label, and the name is equal. */
  predicate Matches(e: Entry, name: seq<Byte>) {
    e[11] / 8 % 2 == 0 && e[..11] == name
  }

  /** What dir_find arrives at from entry k on. The search ends at an entry which was never used. */
  function FindFrom(tab: seq<Entry>, name: seq<Byte>, k: nat): (r: Option<nat>)
    ensures r.Some? ==> k <= r.value < |tab| && Matches(tab[r.value], name)
    decreases |tab| - k
  {
    if k >= |tab| || tab[k][0] == 0 then None
    else if Matches(tab[k], name) then Some(k)
    else FindFrom(tab, name, k + 1)
  }

  function Find(tab: seq<Entry>, name: seq<Byte>): (r: Option<nat>)
    ensures r.Some? ==> r.value < |tab| && Matches(tab[r.value], name)
  {
    FindFrom(tab, name, 0)
  }

  /** Behind an entry that was never used there is none in use. */
  predicate WellEnded(tab: seq<Entry>) {
    forall i, j :: 0 <= i < j < |tab| && tab[i][0] == 0 ==> Free(tab[j])
  }

  /** Every name occurs once. */
  predicate Unique(tab: seq<Entry>) {
    forall i, j ::
      0 <= i < j < |tab| && !Free(tab[i]) && Matches(tab[i], tab[i][..11]) && Matches(tab[j], tab[j][..11]) ==>
        tab[i][..11] != tab[j][..11]
  }

  function NewEntry(name: seq<Byte>): Entry
    requires |name| == 11
  {
    name + seq(21, _ => 0)
  }

  function Deleted(e: Entry): Entry {
    e[0 := 0xE5]
  }

  function Blank(n: nat): (r: seq<Entry>)
    ensures |r| == n && forall i :: 0 <= i < n ==> r[i][0] == 0
  {
    seq(n, _ => seq(32, _ => 0))
  }

  /** tab' is tab with blank entries behind it. */
  predicate Grown(tab: seq<Entry>, tab': seq<Entry>) {
    |tab| <= |tab'| && tab' == tab + Blank(|tab'| - |tab|)
  }

  predicate FirstFree(tab: seq<Entry>, k: nat) {
    k < |tab| && Free(tab[k]) && forall i :: 0 <= i < k ==> !Free(tab[i])
  }

  // ----- what dir_find finds -----

  /** A found entry is the first that matches, and no unused entry comes before it. */
  lemma {:induction false} FoundAt(tab: seq<Entry>, name: seq<Byte>, k: nat, i: nat)
    requires k <= i < |tab| && Matches(tab[i], name)
    requires forall j :: k <= j < i ==> tab[j][0] != 0 && !Matches(tab[j], name)
    requires tab[i][0] != 0
    ensures FindFrom(tab, name, k) == Some(i)
    decreases i - k
  {
    if k < i { FoundAt(tab, name, k + 1, i); }
  }

  lemma {:induction false} FoundOnly(tab: seq<Entry>, name: seq<Byte>, k: nat)
    requires k <= |tab|
    ensures var r := FindFrom(tab, name, k);
            match r
            case Some(i) => tab[i][0] != 0 && forall j :: k <= j < i ==> tab[j][0] != 0 && !Matches(tab[j], name)
            case None => forall j :: k <= j < |tab| && Matches(tab[j], name) ==>
              exists z :: k <= z <= j && tab[z][0] == 0
    decreases |tab| - k
  {
    if k < |tab| && tab[k][0] != 0 && !Matches(tab[k], name) {
      FoundOnly(tab, name, k + 1);
      forall j | k <= j < |tab| && Matches(tab[j], name) && FindFrom(tab, name, k).None?
        ensures exists z :: k <= z <= j && tab[z][0] == 0
      {
        var z :| k + 1 <= z <= j && tab[z][0] == 0;
      }
    }
  }

  /** In a well-ended table a proper name is found just when an entry matches it. */
  lemma FindsAll(tab: seq<Entry>, name: seq<Byte>)
    requires WellEnded(tab) && IsName(name)
    ensures Find(tab, name).None? <==> forall j :: 0 <= j < |tab| ==> !Matches(tab[j], name)
  {
    FoundOnly(tab, name, 0);
    forall j | 0 <= j < |tab| && Matches(tab[j], name) ensures Find(tab, name).Some? { NoBlankBefore(tab, name, j); }
  }

  /** Two tables in which the same entries match the name. */
  lemma SameFind(tab: seq<Entry>, tab': seq<Entry>, name: seq<Byte>)
    requires WellEnded(tab) && WellEnded(tab') && IsName(name)
    requires forall j :: 0 <= j < |tab| || 0 <= j < |tab'| ==>
      (j < |tab| && Matches(tab[j], name) <==> j < |tab'| && Matches(tab'[j], name))
    ensures Find(tab, name) == Find(tab', name)
  {
    FindsAll(tab, name);
    FindsAll(tab', name);
    if Find(tab, name).Some? {
      FoundOnly(tab, name, 0);
      var i := Find(tab, name).value;
      NoBlankBefore(tab', name, i);
      FoundAt(tab', name, 0, i);
    }
  }

  /** An entry with a proper name is in use, so none before it was never used. */
  lemma NoBlankBefore(tab: seq<Entry>, name: seq<Byte>, i: nat)
    requires WellEnded(tab) && IsName(name) && i < |tab| && Matches(tab[i], name)
    ensures forall j :: 0 <= j <= i ==> tab[j][0] != 0
  {
    assert tab[i][0] == name[0];
  }

  // ----- registering and removing -----

  /** dir_register of an absent name: it is found where it was put, and every other name resolves as before. */
  lemma Registered(tab: seq<Entry>, name: seq<Byte>, k: nat)
    requires WellEnded(tab) && Unique(tab) && IsName(name) && Find(tab, name).None? && FirstFree(tab, k)
    ensures var tab' := tab[k := NewEntry(name)];
            && WellEnded(tab') && Unique(tab') && Find(tab', name) == Some(k)
            && forall other :: IsName(other) && other != name ==> Find(tab', other) == Find(tab, other)
  {
    var tab' := tab[k := NewEntry(name)];
    assert NewEntry(name)[..11] == name;
    FindsAll(tab, name);
    assert Matches(tab'[k], name);
    NoBlankBefore(tab', name, k);
    FoundAt(tab', name, 0, k);
    forall other | IsName(other) && other != name ensures Find(tab', other) == Find(tab, other) {
      assert !Matches(tab[k], other);
      SameFind(tab, tab', other);
    }
  }

  /** Blank entries at the end change no name. */
  lemma Stretched(tab: seq<Entry>, tab': seq<Entry>)
    requires WellEnded(tab) && Unique(tab) && (forall i :: 0 <= i < |tab| ==> !Free(tab[i])) && Grown(tab, tab')
    ensures WellEnded(tab') && Unique(tab') && (|tab'| > |tab| ==> FirstFree(tab', |tab|))
    ensures forall name :: IsName(name) ==> Find(tab', name) == Find(tab, name)
  {
    forall name | IsName(name) ensures Find(tab', name) == Find(tab, name) { SameFind(tab, tab', name); }
  }

  /** Blank entries at the end change no name, whatever the table holds. */
  lemma GrownKeeps(tab: seq<Entry>, tab': seq<Entry>)
    requires WellEnded(tab) && Unique(tab) && Grown(tab, tab')
    ensures WellEnded(tab') && Unique(tab')
    ensures forall name :: IsName(name) ==> Find(tab', name) == Find(tab, name)
  {
    forall name | IsName(name) ensures Find(tab', name) == Find(tab, name) { SameFind(tab, tab', name); }
  }

  /** dir_remove of a name: it is absent, and every other name resolves as before. */
  lemma Removed(tab: seq<Entry>, name: seq<Byte>, k: nat)
    requires WellEnded(tab) && Unique(tab) && IsName(name) && Find(tab, name) == Some(k)
    ensures var tab' := tab[k := Deleted(tab[k])];
            && WellEnded(tab') && Unique(tab') && Find(tab', name).None?
            && forall other :: IsName(other) && other != name ==> Find(tab', other) == Find(tab, other)
  {
    var tab' := tab[k := Deleted(tab[k])];
    FoundOnly(tab, name, 0);
    FindsAll(tab', name);
    assert forall j :: 0 <= j < |tab| && j != k && Matches(tab[j], name) ==> tab[j][..11] == tab[k][..11];
    forall other | IsName(other) && other != name ensures Find(tab', other) == Find(tab, other) {
      SameFind(tab, tab', other);
    }
  }
}
