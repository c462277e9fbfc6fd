/** The in-memory side of the note store of note/note.go: the list of notes
    kept newest first, the dictionary by name and the current note's name,
    and the collision-free naming of new and renamed notes. The file
    system is not modelled: what a directory walk read, and whether a
    remove or rename of a file failed, are parameters. */
module Notes {
  import opened Wrappers
  import opened Strings

  /** A note; its times are integer timestamps and its raw bytes are not kept. */
  datatype Note = Note(name: string, content: string, createdAt: int, updatedAt: int)

  /** Note{}, what the store returns when it has no note to return. */
  const ZeroNote: Note := Note("", "", 0, 0)

  datatype StoreError = WalkFailed | RemoveFailed | RenameFailed

  // ---------------------------------------------------------------------
  // Newest-first stable sort (slices.SortStableFunc with the UpdatedAt
  // comparator of LoadNotes)
  // ---------------------------------------------------------------------

  /** `x` placed before the first note that is not newer than it. */
  function InsertNewest(x: Note, t: seq<Note>): seq<Note>
    decreases |t|
  {
    if t == [] || t[0].updatedAt <= x.updatedAt then [x] + t
    else [t[0]] + InsertNewest(x, t[1..])
  }

  /** An insertion sort on UpdatedAt, newest first, equal times in input order. */
  function SortNewestFirst(s: seq<Note>): seq<Note>
    decreases |s|
  {
    if s == [] then [] else InsertNewest(s[0], SortNewestFirst(s[1..]))
  }

  /** Each note is at least as recent as the next. */
  predicate NewestFirst(s: seq<Note>) {
    forall i :: 0 <= i < |s| - 1 ==> s[i].updatedAt >= s[i + 1].updatedAt
  }

  /** The notes of `s` last updated at time `t`, in their order in `s`. */
  function UpdatedAt(s: seq<Note>, t: int): seq<Note>
    decreases |s|
  {
    if s == [] then [] else (if s[0].updatedAt == t then [s[0]] else []) + UpdatedAt(s[1..], t)
  }

  lemma {:induction false} InsertNewestSorted(x: Note, t: seq<Note>)
    requires NewestFirst(t)
    ensures NewestFirst(InsertNewest(x, t))
    ensures |InsertNewest(x, t)| == |t| + 1
    ensures InsertNewest(x, t)[0] == x || InsertNewest(x, t)[0] == t[0]
    decreases |t|
  {
    if !(t == [] || t[0].updatedAt <= x.updatedAt) {
      var rest := InsertNewest(x, t[1..]);
      InsertNewestSorted(x, t[1..]);
      var r := [t[0]] + rest;
      forall i | 0 <= i < |r| - 1
        ensures r[i].updatedAt >= r[i + 1].updatedAt
      {
        if i > 0 {
          assert r[i] == rest[i - 1] && r[i + 1] == rest[i];
        }
      }
    }
  }

  lemma {:induction false} InsertNewestPermutes(x: Note, t: seq<Note>)
    ensures multiset(InsertNewest(x, t)) == multiset(t) + multiset{x}
    decreases |t|
  {
    if !(t == [] || t[0].updatedAt <= x.updatedAt) {
      InsertNewestPermutes(x, t[1..]);
      assert t == [t[0]] + t[1..];
    }
  }

  lemma UpdatedAtCons(a: Note, s: seq<Note>, t: int)
    ensures UpdatedAt([a] + s, t) == (if a.updatedAt == t then [a] else []) + UpdatedAt(s, t)
  {
    assert ([a] + s)[0] == a;
    assert ([a] + s)[1..] == s;
  }

  lemma {:induction false} InsertNewestStable(x: Note, t: seq<Note>, k: int)
    ensures UpdatedAt(InsertNewest(x, t), k) == (if x.updatedAt == k then [x] else []) + UpdatedAt(t, k)
    decreases |t|
  {
    if t == [] || t[0].updatedAt <= x.updatedAt {
      UpdatedAtCons(x, t, k);
    } else {
      InsertNewestStable(x, t[1..], k);
      UpdatedAtCons(t[0], InsertNewest(x, t[1..]), k);
      UpdatedAtCons(t[0], t[1..], k);
      assert [t[0]] + t[1..] == t;
    }
  }

  /** The sorted list is newest first. */
  lemma {:induction false} SortNewestFirstSorted(s: seq<Note>)
    ensures NewestFirst(SortNewestFirst(s))
    ensures |SortNewestFirst(s)| == |s|
    decreases |s|
  {
    if s != [] {
      SortNewestFirstSorted(s[1..]);
      InsertNewestSorted(s[0], SortNewestFirst(s[1..]));
    }
  }

  /** The sorted list holds the same notes. */
  lemma {:induction false} SortNewestFirstPermutes(s: seq<Note>)
    ensures multiset(SortNewestFirst(s)) == multiset(s)
    decreases |s|
  {
    if s != [] {
      SortNewestFirstPermutes(s[1..]);
      InsertNewestPermutes(s[0], SortNewestFirst(s[1..]));
      assert s == [s[0]] + s[1..];
    }
  }

  /** The sort is stable: notes with the same time keep their order. */
  lemma {:induction false} SortNewestFirstStable(s: seq<Note>, t: int)
    ensures UpdatedAt(SortNewestFirst(s), t) == UpdatedAt(s, t)
    decreases |s|
  {
    if s != [] {
      SortNewestFirstStable(s[1..], t);
      InsertNewestStable(s[0], SortNewestFirst(s[1..]), t);
    }
  }

  // ---------------------------------------------------------------------
  // The dictionary filled during a directory walk
  // ---------------------------------------------------------------------

  /** `d` after `d[n.Name] = n` for each note `n` of `ns` in turn. */
  function Recorded(d: map<string, Note>, ns: seq<Note>): map<string, Note>
    decreases |ns|
  {
    if ns == [] then d else Recorded(d[ns[0].name := ns[0]], ns[1..])
  }

  /** A name no walked note has keeps its old entry, or stays absent. */
  lemma {:induction false} RecordedOther(d: map<string, Note>, ns: seq<Note>, k: string)
    requires forall i :: 0 <= i < |ns| ==> ns[i].name != k
    ensures k in Recorded(d, ns) <==> k in d
    ensures k in d ==> Recorded(d, ns)[k] == d[k]
    decreases |ns|
  {
    if ns != [] {
      RecordedOther(d[ns[0].name := ns[0]], ns[1..], k);
    }
  }

  /** The last walked note with a name is the one the dictionary keeps. */
  lemma {:induction false} RecordedLast(d: map<string, Note>, ns: seq<Note>, i: nat)
    requires i < |ns|
    requires forall j :: i < j < |ns| ==> ns[j].name != ns[i].name
    ensures ns[i].name in Recorded(d, ns) && Recorded(d, ns)[ns[i].name] == ns[i]
    decreases |ns|
  {
    var d' := d[ns[0].name := ns[0]];
    if i == 0 {
      RecordedOther(d', ns[1..], ns[0].name);
    } else {
      RecordedLast(d', ns[1..], i - 1);
    }
  }

  /** Every walked note's name ends up in the dictionary, and no key leaves it. */
  lemma {:induction false} RecordedKeys(d: map<string, Note>, ns: seq<Note>)
    ensures forall k :: k in d ==> k in Recorded(d, ns)
    ensures forall x :: x in ns ==> x.name in Recorded(d, ns)
    decreases |ns|
  {
    if ns != [] {
      RecordedKeys(d[ns[0].name := ns[0]], ns[1..]);
      assert forall x :: x in ns ==> x == ns[0] || x in ns[1..];
    }
  }

  // ---------------------------------------------------------------------
  // Removal from the list (slices.DeleteFunc in Delete)
  // ---------------------------------------------------------------------

  /** The notes of `s` not called `name`, in order. */
  function Without(s: seq<Note>, name: string): seq<Note>
    decreases |s|
  {
    if s == [] then [] else (if s[0].name == name then [] else [s[0]]) + Without(s[1..], name)
  }

  lemma WithoutCons(a: Note, s: seq<Note>, name: string)
    ensures Without([a] + s, name) == (if a.name == name then [] else [a]) + Without(s, name)
  {
    assert ([a] + s)[0] == a;
    assert ([a] + s)[1..] == s;
  }

  /** Every note called `name` goes, every other note stays as often as before. */
  lemma {:induction false} WithoutCounts(s: seq<Note>, name: string, x: Note)
    ensures multiset(Without(s, name))[x] == if x.name == name then 0 else multiset(s)[x]
    decreases |s|
  {
    if s != [] {
      WithoutCounts(s[1..], name, x);
      assert s == [s[0]] + s[1..];
    }
  }

  /** Removal works piecewise, so the kept notes keep their order. */
  lemma {:induction false} WithoutConcat(a: seq<Note>, b: seq<Note>, name: string)
    ensures Without(a + b, name) == Without(a, name) + Without(b, name)
    decreases |a|
  {
    if a == [] {
      assert a + b == b;
    } else {
      WithoutConcat(a[1..], b, name);
      assert a + b == [a[0]] + (a[1..] + b);
      WithoutCons(a[0], a[1..] + b, name);
      assert a == [a[0]] + a[1..];
      WithoutCons(a[0], a[1..], name);
    }
  }

  /** Removing twice removes nothing more. */
  lemma {:induction false} WithoutIdempotent(s: seq<Note>, name: string)
    ensures Without(Without(s, name), name) == Without(s, name)
    decreases |s|
  {
    if s != [] {
      WithoutIdempotent(s[1..], name);
      if s[0].name != name {
        assert Without(s, name) == [s[0]] + Without(s[1..], name);
        WithoutCons(s[0], Without(s[1..], name), name);
      } else {
        assert Without(s, name) == Without(s[1..], name);
      }
    }
  }

  // ---------------------------------------------------------------------
  // Unique names (generateUniqueName)
  // ---------------------------------------------------------------------

  /** The k-th name tried: the name itself, then name-1, name-2, ... */
  function Candidate(name: string, k: nat): string {
    if k == 0 then name else name + "-" + NatToString(k)
  }

  /** `k` is the first candidate whose lower-case form is not taken. */
  predicate LeastFree(fileNames: seq<string>, name: string, k: nat) {
    && Lower(Candidate(name, k)) !in fileNames
    && forall j :: 0 <= j < k ==> Lower(Candidate(name, j)) in fileNames
  }

  /** `r` is the name generateUniqueName picks for `name`. */
  ghost predicate UniqueNameFor(fileNames: seq<string>, name: string, r: string) {
    exists k: nat :: LeastFree(fileNames, name, k) && r == Candidate(name, k)
  }

  lemma LowerCandidate(name: string, k: nat)
    requires k > 0
    ensures Lower(Candidate(name, k)) == Lower(name) + "-" + NatToString(k)
  {
    LowerConcat(name, "-" + NatToString(k));
    LowerDigits("-" + NatToString(k));
  }

  /** Different candidates differ even after lower-casing. */
  lemma CandidatesDistinct(name: string, i: nat, j: nat)
    requires i < j
    ensures Lower(Candidate(name, i)) != Lower(Candidate(name, j))
  {
    LowerCandidate(name, j);
    if i > 0 {
      LowerCandidate(name, i);
      var a := Lower(name) + "-" + NatToString(i);
      var b := Lower(name) + "-" + NatToString(j);
      if a == b {
        assert a[|name| + 1..] == NatToString(i);
        assert b[|name| + 1..] == NatToString(j);
        NatToStringInjective(i, j);
      }
    }
  }

  /** The inner loop of generateUniqueName: is `name`, lower-cased, taken? */
  method IsDuplicate(fileNames: seq<string>, name: string) returns (duplicate: bool)
    ensures duplicate <==> Lower(name) in fileNames
  {
    var lowered := Lower(name);
    var i := 0;
    while i < |fileNames|
      invariant 0 <= i <= |fileNames|
      invariant lowered !in fileNames[..i]
    {
      if fileNames[i] == lowered {
        return true;
      }
      assert fileNames[..i + 1] == fileNames[..i] + [fileNames[i]];
      i := i + 1;
    }
    assert fileNames[..i] == fileNames;
    return false;
  }

  /** The first `c` candidates are all taken. */
  predicate TakenBelow(fileNames: seq<string>, name: string, c: nat) {
    forall j :: 0 <= j < c ==> Lower(Candidate(name, j)) in fileNames
  }

  /** `tried` holds only the lower-cased forms of the first `c` candidates. */
  ghost predicate TriedBelow(tried: set<string>, name: string, c: nat) {
    forall y :: y in tried ==> exists j :: 0 <= j < c && y == Lower(Candidate(name, j))
  }

  /** Trying candidate `c` adds a name not tried before. */
  lemma TryNext(tried: set<string>, name: string, c: nat)
    requires TriedBelow(tried, name, c)
    ensures Lower(Candidate(name, c)) !in tried
    ensures TriedBelow(tried + {Lower(Candidate(name, c))}, name, c + 1)
  {
    var x := Lower(Candidate(name, c));
    if x in tried {
      var j :| 0 <= j < c && x == Lower(Candidate(name, j));
      CandidatesDistinct(name, j, c);
    }
  }

  lemma TakenShrinks(taken: set<string>, tried: set<string>, x: string)
    requires x in taken && x !in tried
    ensures |taken - (tried + {x})| < |taken - tried|
  {
    assert taken - (tried + {x}) == (taken - tried) - {x};
  }

  lemma TakenNext(fileNames: seq<string>, name: string, c: nat)
    requires TakenBelow(fileNames, name, c) && Lower(Candidate(name, c)) in fileNames
    ensures TakenBelow(fileNames, name, c + 1)
  {
  }

  /** generateUniqueName: the name unchanged when no existing name clashes
      with it case-insensitively, otherwise name-k for the least k >= 1
      that is free; the loop ends because each clash uses up a different
      existing name. */
  method GenerateUniqueName(fileNames: seq<string>, name: string) returns (r: string)
    ensures Lower(r) !in fileNames
    ensures UniqueNameFor(fileNames, name, r)
    ensures Lower(name) !in fileNames ==> r == name
  {
    if |fileNames| == 0 {
      assert LeastFree(fileNames, name, 0);
      return name;
    }
    ghost var taken := set x | x in fileNames;
    ghost var tried: set<string> := {};
    var counter: nat := 1;
    r := name;
    var duplicate := IsDuplicate(fileNames, r);
    while duplicate
      invariant counter >= 1 && r == Candidate(name, counter - 1)
      invariant duplicate <==> Lower(r) in fileNames
      invariant TakenBelow(fileNames, name, counter - 1)
      invariant tried <= taken && TriedBelow(tried, name, counter - 1)
      decreases |taken - tried|
    {
      TryNext(tried, name, counter - 1);
      TakenShrinks(taken, tried, Lower(r));
      TakenNext(fileNames, name, counter - 1);
      tried := tried + {Lower(r)};
      r := name + "-" + NatToString(counter);
      counter := counter + 1;
      duplicate := IsDuplicate(fileNames, r);
    }
    assert LeastFree(fileNames, name, counter - 1);
  }

  /** strings.TrimSuffix */
  function TrimSuffix(s: string, suffix: string): (r: string)
    ensures |suffix| <= |s| && s[|s| - |suffix|..] == suffix ==> r + suffix == s
    ensures !(|suffix| <= |s| && s[|s| - |suffix|..] == suffix) ==> r == s
  {
    if |suffix| <= |s| && s[|s| - |suffix|..] == suffix then s[..|s| - |suffix|] else s
  }

  /** The names getAllNoteFileNames compares against: lower-cased, ".md" cut. */
  function FileNames(notes: seq<Note>): (r: seq<string>)
    ensures |r| == |notes|
    ensures forall i :: 0 <= i < |notes| ==> r[i] == Lower(TrimSuffix(notes[i].name, ".md"))
  {
    seq(|notes|, i requires 0 <= i < |notes| => Lower(TrimSuffix(notes[i].name, ".md")))
  }

  /** getAllNoteFileNames' append loop over the notes. */
  method CollectFileNames(notes: seq<Note>) returns (fileNames: seq<string>)
    ensures fileNames == FileNames(notes)
  {
    fileNames := [];
    for i := 0 to |notes|
      invariant fileNames == FileNames(notes[..i])
    {
      var name := Lower(TrimSuffix(notes[i].name, ".md"));
      fileNames := fileNames + [name];
    }
    assert notes[..|notes|] == notes;
  }

  // ---------------------------------------------------------------------
  // The store
  // ---------------------------------------------------------------------

  /** The index of the first note called `name`. */
  function NameIndex(notes: seq<Note>, name: string): (r: Option<nat>)
    ensures r.Some? ==> (r.value < |notes| && notes[r.value].name == name
      && forall j :: 0 <= j < r.value ==> notes[j].name != name)
    ensures r.None? ==> forall j :: 0 <= j < |notes| ==> notes[j].name != name
    decreases |notes|
  {
    if notes == [] then None
    else if notes[0].name == name then Some(0)
    else match NameIndex(notes[1..], name)
      case None => None
      case Some(i) => Some(i + 1)
  }

  class Store {
    var notes: seq<Note>
    var dictionary: map<string, Note>
    var currentNoteName: string

    /** NewStore: no notes, an empty dictionary, no current note. */
    constructor ()
      ensures notes == [] && dictionary == map[] && currentNoteName == ""
    {
      notes := [];
      dictionary := map[];
      currentNoteName := "";
    }

    /** The current note is found by name in the dictionary, not the list. */
    function GetCurrentNote(): (r: Option<Note>)
      reads this
      ensures r.Some? <==> currentNoteName in dictionary
      ensures r.Some? ==> r.value == dictionary[currentNoteName]
    {
      if currentNoteName in dictionary then Some(dictionary[currentNoteName]) else None
    }

    /** GetNoteByName: the dictionary's entry for `name`, if it has one. */
    function GetNoteByName(name: string): (r: Option<Note>)
      reads this
      ensures r.Some? <==> name in dictionary
      ensures r.Some? ==> r.value == dictionary[name]
    {
      if name in dictionary then Some(dictionary[name]) else None
    }

    method SetCurrentNoteName(name: string)
      modifies this
      ensures currentNoteName == name
      ensures notes == old(notes) && dictionary == old(dictionary)
    {
      currentNoteName := name;
    }

    /** True when there are no notes or the current note heads the list. */
    function IsFirstNote(): (r: bool)
      reads this
      ensures r <==> notes == [] || currentNoteName == notes[0].name
    {
      if |notes| == 0 then true else currentNoteName == notes[0].name
    }

    /** The dictionary entries the walk adds, one note at a time in walk
        order, so a later note with the same name wins. */
    method Record(walked: seq<Note>)
      modifies this
      ensures dictionary == Recorded(old(dictionary), walked)
      ensures notes == old(notes) && currentNoteName == old(currentNoteName)
    {
      var i := 0;
      while i < |walked|
        invariant 0 <= i <= |walked|
        invariant Recorded(dictionary, walked[i..]) == Recorded(old(dictionary), walked)
        invariant notes == old(notes) && currentNoteName == old(currentNoteName)
      {
        assert walked[i..][0] == walked[i] && walked[i..][1..] == walked[i + 1..];
        dictionary := dictionary[walked[i].name := walked[i]];
        i := i + 1;
      }
      assert walked[i..] == [];
    }

    /** LoadNotes over the notes a directory walk read, in walk order. On a
        walk error the dictionary keeps what was added before it and
        nothing else changes; otherwise the list becomes the notes sorted
        newest first, and an empty current name becomes the newest note's. */
    method LoadNotes(walked: seq<Note>, walkFailed: bool) returns (r: Result<seq<Note>, StoreError>)
      modifies this
      ensures dictionary == Recorded(old(dictionary), walked)
      ensures walkFailed ==> r == Err(WalkFailed) && notes == old(notes) && currentNoteName == old(currentNoteName)
      ensures !walkFailed ==> r == Ok(notes) && notes == SortNewestFirst(walked)
      ensures !walkFailed ==> NewestFirst(notes) && multiset(notes) == multiset(walked)
      ensures !walkFailed && old(currentNoteName) == "" && walked != [] ==>
        currentNoteName == notes[0].name && IsFirstNote() && GetCurrentNote().Some?
      ensures !walkFailed && (old(currentNoteName) != "" || walked == []) ==> currentNoteName == old(currentNoteName)
    {
      Record(walked);
      if walkFailed {
        return Err(WalkFailed);
      }
      var sorted := SortNewestFirst(walked);
      SortNewestFirstSorted(walked);
      SortNewestFirstPermutes(walked);
      notes := sorted;
      if |sorted| > 0 {
        assert sorted[0] in multiset(walked);
        RecordedKeys(old(dictionary), walked);
        currentNoteName := if currentNoteName == "" then sorted[0].name else currentNoteName;
      }
      r := Ok(sorted);
    }

    /** Delete: when the file is removed, every note of that name leaves the
        list; the dictionary and the current name are left as they were. */
    method Delete(name: string, removeFailed: bool) returns (r: Result<(), StoreError>)
      modifies this
      ensures removeFailed ==> r == Err(RemoveFailed) && notes == old(notes)
      ensures !removeFailed ==> r == Ok(()) && notes == Without(old(notes), name)
      ensures dictionary == old(dictionary) && currentNoteName == old(currentNoteName)
    {
      if removeFailed {
        return Err(RemoveFailed);
      }
      notes := Without(notes, name);
      r := Ok(());
    }

    /** getAllNoteFileNames: the lower-cased names of the notes a fresh
        walk read, or of the listed notes when that walk fails. The walk
        runs on a copy of the store, so of its effects only the shared
        dictionary's new entries remain. */
    method AllNoteFileNames(walked: seq<Note>, walkFailed: bool) returns (names: seq<string>)
      modifies this
      ensures names == FileNames(if walkFailed then notes else SortNewestFirst(walked))
      ensures dictionary == Recorded(old(dictionary), walked)
      ensures notes == old(notes) && currentNoteName == old(currentNoteName)
    {
      Record(walked);
      if walkFailed {
        names := CollectFileNames(notes);
      } else {
        names := CollectFileNames(SortNewestFirst(walked));
      }
    }

    /** The note at `i` takes the name `unique`, in the list and in the
        dictionary, where it replaces the entry under `currentName`. */
    method Retitle(i: nat, currentName: string, unique: string)
      requires i < |notes|
      modifies this
      ensures notes == old(notes)[i := old(notes)[i].(name := unique)]
      ensures dictionary == (old(dictionary) - {currentName})[unique := notes[i]]
      ensures currentNoteName == old(currentNoteName)
    {
      notes := notes[i := notes[i].(name := unique)];
      dictionary := (dictionary - {currentName})[unique := notes[i]];
    }

    /** RenameNote, whose receiver is a copy of the store: the unique name
        is chosen against a fresh walk, then, if the file rename succeeds,
        the first note of the old name takes the new name in the shared
        list and moves in the shared dictionary; the copy's current name
        is what changes, so the store's own current name does not. */
    method RenameNote(currentName: string, newName: string, walked: seq<Note>, walkFailed: bool, renameFailed: bool)
      returns (r: Result<Note, StoreError>)
      modifies this
      ensures currentNoteName == old(currentNoteName)
      ensures renameFailed ==>
        (r == Err(RenameFailed) && notes == old(notes) && dictionary == Recorded(old(dictionary), walked))
      ensures !renameFailed && NameIndex(old(notes), currentName).None? ==>
        (r == Ok(ZeroNote) && notes == old(notes) && dictionary == Recorded(old(dictionary), walked))
      ensures !renameFailed && NameIndex(old(notes), currentName).Some? ==>
        var i := NameIndex(old(notes), currentName).value;
        var fileNames := FileNames(if walkFailed then old(notes) else SortNewestFirst(walked));
        && |notes| == |old(notes)|
        && UniqueNameFor(fileNames, newName, notes[i].name)
        && notes == old(notes)[i := old(notes)[i].(name := notes[i].name)]
        && dictionary == (Recorded(old(dictionary), walked) - {currentName})[notes[i].name := notes[i]]
        && GetNoteByName(notes[i].name) == Some(notes[i])
        && (notes[i].name != currentName ==> GetNoteByName(currentName).None?)
        && r == Ok(notes[i])
    {
      var fileNames := AllNoteFileNames(walked, walkFailed);
      var unique := GenerateUniqueName(fileNames, newName);
      if renameFailed {
        return Err(RenameFailed);
      }
      var i := 0;
      while i < |notes| && notes[i].name != currentName
        invariant 0 <= i <= |notes|
        invariant forall j :: 0 <= j < i ==> notes[j].name != currentName
      {
        i := i + 1;
      }
      if i == |notes| {
        return Ok(ZeroNote);
      }
      assert NameIndex(notes, currentName) == Some(i);
      Retitle(i, currentName, unique);
      r := Ok(notes[i]);
    }
  }
}
