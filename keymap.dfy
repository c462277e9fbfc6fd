/** The key map of internal/keymap/keymap.go: the field-wise merge of two
    key maps (CombineKeys), the in-place replacement of bindings by help
    key (ReplaceBinding) and the help lists. A binding is the record of
    the key package: its keys, its help text and whether it is disabled. */
module Keymap {

  datatype Help = Help(key: string, desc: string)

  datatype Binding = Binding(keys: seq<string>, help: Help, disabled: bool)

  /** key.Binding{}: no keys, empty help, enabled. */
  const ZeroBinding: Binding := Binding([], Help("", ""), false)

  /** keymap.Model: eleven bindings and the two help lists. */
  datatype KeyMap = KeyMap(
    up: Binding, down: Binding, left: Binding, right: Binding,
    help: Binding, quit: Binding, back: Binding, select: Binding,
    search: Binding, exitSearch: Binding, copy: Binding,
    shortHelpBindings: seq<Binding>, fullHelpBindings: seq<Binding>)

  /** Model{}: every field at its zero value. */
  const ZeroKeyMap: KeyMap := KeyMap(
    ZeroBinding, ZeroBinding, ZeroBinding, ZeroBinding,
    ZeroBinding, ZeroBinding, ZeroBinding, ZeroBinding,
    ZeroBinding, ZeroBinding, ZeroBinding, [], [])

  /** The fields of the record, in declaration order, as reflection visits them. */
  datatype Field =
    | Up | Down | Left | Right | HelpKey | Quit | Back | Select
    | Search | ExitSearch | Copy | ShortHelpBindings | FullHelpBindings

  const AllFields: seq<Field> := [
    Up, Down, Left, Right, HelpKey, Quit, Back, Select,
    Search, ExitSearch, Copy, ShortHelpBindings, FullHelpBindings]

  /** Where `f` sits in AllFields: every field is visited. */
  function FieldIndex(f: Field): (i: nat)
    ensures i < |AllFields| && AllFields[i] == f
  {
    match f
    case Up => 0
    case Down => 1
    case Left => 2
    case Right => 3
    case HelpKey => 4
    case Quit => 5
    case Back => 6
    case Select => 7
    case Search => 8
    case ExitSearch => 9
    case Copy => 10
    case ShortHelpBindings => 11
    case FullHelpBindings => 12
  }

  /** What a field holds: one binding or a list of them. */
  datatype Value = One(binding: Binding) | Many(bindings: seq<Binding>)

  predicate Fits(f: Field, v: Value) {
    if f == ShortHelpBindings || f == FullHelpBindings then v.Many? else v.One?
  }

  /** reflect's IsZero on a field (an empty list counts as zero). */
  predicate IsZero(v: Value) {
    match v
    case One(b) => b == ZeroBinding
    case Many(bs) => bs == []
  }

  function Get(m: KeyMap, f: Field): (v: Value)
    ensures Fits(f, v)
  {
    match f
    case Up => One(m.up)
    case Down => One(m.down)
    case Left => One(m.left)
    case Right => One(m.right)
    case HelpKey => One(m.help)
    case Quit => One(m.quit)
    case Back => One(m.back)
    case Select => One(m.select)
    case Search => One(m.search)
    case ExitSearch => One(m.exitSearch)
    case Copy => One(m.copy)
    case ShortHelpBindings => Many(m.shortHelpBindings)
    case FullHelpBindings => Many(m.fullHelpBindings)
  }

  /** Field `f` of `m` set to `v`; every other field kept. */
  function Set(m: KeyMap, f: Field, v: Value): (r: KeyMap)
    requires Fits(f, v)
    ensures Get(r, f) == v
    ensures forall g :: g != f ==> Get(r, g) == Get(m, g)
  {
    match f
    case Up => m.(up := v.binding)
    case Down => m.(down := v.binding)
    case Left => m.(left := v.binding)
    case Right => m.(right := v.binding)
    case HelpKey => m.(help := v.binding)
    case Quit => m.(quit := v.binding)
    case Back => m.(back := v.binding)
    case Select => m.(select := v.binding)
    case Search => m.(search := v.binding)
    case ExitSearch => m.(exitSearch := v.binding)
    case Copy => m.(copy := v.binding)
    case ShortHelpBindings => m.(shortHelpBindings := v.bindings)
    case FullHelpBindings => m.(fullHelpBindings := v.bindings)
  }

  /** Two key maps that agree on every field are the same. */
  lemma Extensionality(x: KeyMap, y: KeyMap)
    requires forall f :: Get(x, f) == Get(y, f)
    ensures x == y
  {
    assert Get(x, Up) == Get(y, Up) && Get(x, Down) == Get(y, Down);
    assert Get(x, Left) == Get(y, Left) && Get(x, Right) == Get(y, Right);
    assert Get(x, HelpKey) == Get(y, HelpKey) && Get(x, Quit) == Get(y, Quit);
    assert Get(x, Back) == Get(y, Back) && Get(x, Select) == Get(y, Select);
    assert Get(x, Search) == Get(y, Search) && Get(x, ExitSearch) == Get(y, ExitSearch);
    assert Get(x, Copy) == Get(y, Copy);
    assert Get(x, ShortHelpBindings) == Get(y, ShortHelpBindings);
    assert Get(x, FullHelpBindings) == Get(y, FullHelpBindings);
  }

  /** The field value CombineKeys keeps: b's unless it is zero, then a's. */
  function Pick(a: Value, b: Value): Value {
    if !IsZero(b) then b else a
  }

  /** The merge CombineKeys computes, field by field. */
  function Merge(a: KeyMap, b: KeyMap): (r: KeyMap)
    ensures forall f :: Get(r, f) == Pick(Get(a, f), Get(b, f))
  {
    KeyMap(
      Pick(One(a.up), One(b.up)).binding, Pick(One(a.down), One(b.down)).binding,
      Pick(One(a.left), One(b.left)).binding, Pick(One(a.right), One(b.right)).binding,
      Pick(One(a.help), One(b.help)).binding, Pick(One(a.quit), One(b.quit)).binding,
      Pick(One(a.back), One(b.back)).binding, Pick(One(a.select), One(b.select)).binding,
      Pick(One(a.search), One(b.search)).binding, Pick(One(a.exitSearch), One(b.exitSearch)).binding,
      Pick(One(a.copy), One(b.copy)).binding,
      Pick(Many(a.shortHelpBindings), Many(b.shortHelpBindings)).bindings,
      Pick(Many(a.fullHelpBindings), Many(b.fullHelpBindings)).bindings)
  }

  /** CombineKeys: start from the zero map and visit every field, taking
      b's value when it is not zero, else a's when that is not zero. */
  method CombineKeys(a: KeyMap, b: KeyMap) returns (result: KeyMap)
    ensures result == Merge(a, b)
    ensures forall f :: Get(result, f) == (if !IsZero(Get(b, f)) then Get(b, f) else Get(a, f))
  {
    result := ZeroKeyMap;
    for i := 0 to |AllFields|
      invariant forall j :: 0 <= j < i ==> Get(result, AllFields[j]) == Pick(Get(a, AllFields[j]), Get(b, AllFields[j]))
      invariant forall j :: i <= j < |AllFields| ==> IsZero(Get(result, AllFields[j]))
    {
      var f := AllFields[i];
      var bField := Get(b, f);
      if !IsZero(bField) {
        result := Set(result, f, bField);
        continue;
      }
      var aField := Get(a, f);
      if !IsZero(aField) {
        result := Set(result, f, aField);
      }
    }
    VisitedAll(a, b, result);
  }

  /** A map that holds the merged value at every field visited in
      AllFields is the merge. */
  lemma VisitedAll(a: KeyMap, b: KeyMap, m: KeyMap)
    requires forall j :: 0 <= j < |AllFields| ==> Get(m, AllFields[j]) == Pick(Get(a, AllFields[j]), Get(b, AllFields[j]))
    ensures m == Merge(a, b)
  {
    forall f
      ensures Get(m, f) == Get(Merge(a, b), f)
    {
      var j := FieldIndex(f);
    }
    Extensionality(m, Merge(a, b));
  }

  /** Merging with the zero map on either side changes nothing. */
  lemma MergeZero(a: KeyMap)
    ensures Merge(a, ZeroKeyMap) == a
    ensures Merge(ZeroKeyMap, a) == a
  {
  }

  /** Merging is associative and idempotent: later maps win field by field. */
  lemma MergeAssociative(a: KeyMap, b: KeyMap, c: KeyMap)
    ensures Merge(Merge(a, b), c) == Merge(a, Merge(b, c))
    ensures Merge(a, a) == a
  {
  }

  /** The bindings of `s` with every one whose help key is that of `nb`
      replaced by `nb`. */
  function Replaced(s: seq<Binding>, nb: Binding): (r: seq<Binding>)
    ensures |r| == |s|
    ensures forall i :: 0 <= i < |s| ==> r[i] == if s[i].help.key == nb.help.key then nb else s[i]
  {
    seq(|s|, i requires 0 <= i < |s| => if s[i].help.key == nb.help.key then nb else s[i])
  }

  /** Replacing twice is replacing once. */
  lemma ReplacedIdempotent(s: seq<Binding>, nb: Binding)
    ensures Replaced(Replaced(s, nb), nb) == Replaced(s, nb)
  {
  }

  /** After replacement the new binding is the only one with its help key. */
  lemma ReplacedOnly(s: seq<Binding>, nb: Binding)
    ensures forall i :: 0 <= i < |s| && Replaced(s, nb)[i].help.key == nb.help.key ==> Replaced(s, nb)[i] == nb
  {
  }

  /** ReplaceBinding: overwrite in place every binding with the new
      binding's help key, and hand back the same array. */
  method ReplaceBinding(bindings: array<Binding>, newBinding: Binding) returns (r: array<Binding>)
    modifies bindings
    ensures r == bindings
    ensures bindings[..] == Replaced(old(bindings[..]), newBinding)
  {
    for i := 0 to bindings.Length
      invariant bindings[..i] == Replaced(old(bindings[..]), newBinding)[..i]
      invariant bindings[i..] == old(bindings[..])[i..]
    {
      if bindings[i].help.key == newBinding.help.key {
        bindings[i] := newBinding;
      }
    }
    return bindings;
  }

  /** ShortHelp hands back the short-help list as it is. */
  function ShortHelp(k: KeyMap): (r: seq<Binding>)
    ensures r == k.shortHelpBindings
  {
    k.shortHelpBindings
  }

  /** FullHelp is always empty, whatever the full-help list holds. */
  function FullHelp(k: KeyMap): (r: seq<seq<Binding>>)
    ensures r == []
  {
    []
  }
}
