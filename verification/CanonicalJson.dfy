/**
  `json.dumps(value, sort_keys=True, separators=(",", ":"))`: the compact dump that
  the registry signature covers and that array uniqueness compares.
 */
module CanonicalJson {
  import opened Wrappers
  import opened JsonModel
  import opened JsonLayout
  import opened JsonText
  import opened JsonRoundTrip
  import opened Text

  function SortedTree(v: Json): Tree {
    match v
    case Null => TNull
    case Bool(truth) => TBool(truth)
    case Num(literal) => TNum(literal)
    case Str(text) => TStr(text)
    case Arr(items) => TArr(seq(|items|, i requires 0 <= i < |items| => SortedTree(items[i])))
    case Obj(fields) =>
      var keys := Sorted(fields.Keys);
      TObj(seq(|keys|, i requires 0 <= i < |keys| => assert keys[i] in keys; (keys[i], SortedTree(fields[keys[i]]))))
  }

  function Dump(v: Json, ascii: bool): string {
    Print(SortedTree(v), Style(ascii, false), 0)
  }

  ghost predicate HasKey(members: seq<(string, Tree)>, k: string) {
    exists i :: 0 <= i < |members| && members[i].0 == k
  }

  lemma {:induction false} DistinctMembers(members: seq<(string, Tree)>, fields: map<string, Json>)
    requires forall i, j :: 0 <= i < j < |members| ==> members[i].0 != members[j].0
    requires forall i :: 0 <= i < |members| ==> members[i].0 in fields && ValueOf(members[i].1) == fields[members[i].0]
    ensures forall k :: k in MemberValues(members) <==> HasKey(members, k)
    ensures forall k :: k in MemberValues(members) ==> k in fields && MemberValues(members)[k] == fields[k]
  {
    hide ValueOf;
    if members != [] {
      DistinctMembers(members[1..], fields);
      var (key, value) := members[0];
      forall k
        ensures HasKey(members, k) <==> key == k || HasKey(members[1..], k)
      {
        if i :| 0 <= i < |members[1..]| && members[1..][i].0 == k {
          assert members[i + 1].0 == k;
        }
        if i :| 0 < i < |members| && members[i].0 == k {
          assert members[1..][i - 1].0 == k;
        }
      }
    }
  }

  lemma {:induction false} SortedTreeDenotes(v: Json)
    ensures ValueOf(SortedTree(v)) == v && Printable(SortedTree(v), true)
  {
    match v
    case Arr(items) =>
      forall i | 0 <= i < |items| { SortedTreeDenotes(items[i]); }
      assert ValueOf(SortedTree(v)).items == items;
    case Obj(fields) =>
      forall k | k in fields
        ensures ValueOf(SortedTree(fields[k])) == fields[k] && Printable(SortedTree(fields[k]), true)
      {
        SortedTreeDenotes(fields[k]);
      }
      SortedMembers(fields);
    case _ =>
  }

  lemma SortedMembers(fields: map<string, Json>)
    requires forall k :: k in fields ==>
      ValueOf(SortedTree(fields[k])) == fields[k] && Printable(SortedTree(fields[k]), true)
    ensures ValueOf(SortedTree(Obj(fields))) == Obj(fields) && Printable(SortedTree(Obj(fields)), true)
  {
    var keys, members := Sorted(fields.Keys), SortedTree(Obj(fields)).members;
    SortedAscends(fields.Keys);
    forall i | 0 <= i < |members|
      ensures members[i].0 == keys[i] && keys[i] in fields
      ensures ValueOf(members[i].1) == fields[members[i].0] && Printable(members[i].1, true)
    {
      assert members[i].0 == keys[i] && keys[i] in keys;
    }
    assert forall k :: k in fields ==> k in keys;
    MembersDenote(keys, members, fields);
  }

  lemma MembersDenote(keys: seq<string>, members: seq<(string, Tree)>, fields: map<string, Json>)
    requires Ascending(keys) && |members| == |keys| && forall k :: k in fields ==> k in keys
    requires forall i :: 0 <= i < |members| ==>
      members[i].0 == keys[i] && keys[i] in fields && ValueOf(members[i].1) == fields[keys[i]]
    ensures MemberValues(members) == fields
  {
    hide MemberValues, ValueOf;
    DistinctMembers(members, fields);
    forall k | k in fields ensures k in MemberValues(members) {
      var i :| 0 <= i < |keys| && keys[i] == k;
      assert members[i].0 == k;
    }
  }

  /** Reading a dump gives back the value, object key order apart. */
  lemma DumpParses(v: Json, ascii: bool)
    ensures Parse(Dump(v, ascii), true) == Some(v)
  {
    SortedTreeDenotes(v);
    PrintedParses(SortedTree(v), Style(ascii, false), "", true);
    assert Dump(v, ascii) + "" == Dump(v, ascii);
  }

  /** Two values have the same dump exactly when they are equal. */
  lemma DumpInjective(v: Json, w: Json, ascii: bool)
    ensures Dump(v, ascii) == Dump(w, ascii) <==> v == w
  {
    DumpParses(v, ascii);
    DumpParses(w, ascii);
  }

  /** The markers of the items, one by one. */
  function Markers(items: seq<Json>): (markers: seq<string>)
    ensures |markers| == |items| && forall i :: 0 <= i < |items| ==> markers[i] == Dump(items[i], true)
  {
    seq(|items|, i requires 0 <= i < |items| => Dump(items[i], true))
  }

  /** Markers repeat exactly where items do. */
  lemma MarkersTell(items: seq<Json>, markers: seq<string>)
    requires markers == Markers(items)
    ensures forall i, j :: 0 <= i < |items| && 0 <= j < |items| ==> (markers[i] == markers[j] <==> items[i] == items[j])
  {
    forall i, j | 0 <= i < |items| && 0 <= j < |items| ensures markers[i] == markers[j] <==> items[i] == items[j] {
      DumpInjective(items[i], items[j], true);
    }
  }

  /** The first marker that repeats an earlier one. */
  method FirstRepeat(markers: seq<string>) returns (repeat: Option<nat>)
    ensures repeat.None? <==> (forall i, j :: 0 <= i < j < |markers| ==> markers[i] != markers[j])
    ensures repeat.Some? ==>
      repeat.value < |markers| &&
      (exists i :: 0 <= i < repeat.value && markers[i] == markers[repeat.value]) &&
      forall i, j :: 0 <= i < j < repeat.value ==> markers[i] != markers[j]
  {
    var seen: set<string> := {};
    for n := 0 to |markers|
      invariant forall m :: m in seen <==> exists i :: 0 <= i < n && markers[i] == m
      invariant forall i, j :: 0 <= i < j < n ==> markers[i] != markers[j]
    {
      if markers[n] in seen {
        return Some(n);
      }
      seen := seen + {markers[n]};
    }
    return None;
  }

  /** The `uniqueItems` test of the fixture validator: the first item that repeats an earlier one, if any. */
  method FindDuplicate(items: seq<Json>) returns (duplicate: Option<nat>)
    ensures duplicate.None? <==> (forall i, j :: 0 <= i < j < |items| ==> items[i] != items[j])
    ensures duplicate.Some? ==>
      duplicate.value < |items| &&
      (exists i :: 0 <= i < duplicate.value && items[i] == items[duplicate.value]) &&
      forall i, j :: 0 <= i < j < duplicate.value ==> items[i] != items[j]
  {
    var markers := Markers(items);
    MarkersTell(items, markers);
    duplicate := FirstRepeat(markers);
  }

  // ------------------------------------------------------------------- layout

  function Dumps(items: seq<Json>, ascii: bool): (texts: seq<string>)
    ensures |texts| == |items| && forall i :: 0 <= i < |items| ==> texts[i] == Dump(items[i], ascii)
  {
    seq(|items|, i requires 0 <= i < |items| => Dump(items[i], ascii))
  }

  function MemberDumps(fields: map<string, Json>, keys: seq<string>, ascii: bool): (texts: seq<string>)
    requires forall k :: k in keys ==> k in fields
    ensures |texts| == |keys|
    ensures forall i :: 0 <= i < |keys| ==> texts[i] == Quote(keys[i], ascii) + ":" + Dump(fields[keys[i]], ascii)
  {
    seq(|keys|, i requires 0 <= i < |keys| => Quote(keys[i], ascii) + ":" + Dump(fields[keys[i]], ascii))
  }

  lemma {:induction false} PrintAtAnyDepth(t: Tree, ascii: bool, d: nat, e: nat)
    ensures Print(t, Style(ascii, false), d) == Print(t, Style(ascii, false), e)
    decreases t
  {
    hide Print, Quote, JoinWith;
    var style := Style(ascii, false);
    match t
    case TArr(items) =>
      Layouts(items, [], style, d);
      Layouts(items, [], style, e);
      forall i | 0 <= i < |items| { PrintAtAnyDepth(items[i], ascii, d + 1, e + 1); }
      assert PrintedItems(items, style, d + 1) == PrintedItems(items, style, e + 1);
    case TObj(members) =>
      Layouts([], members, style, d);
      Layouts([], members, style, e);
      forall i | 0 <= i < |members| { PrintAtAnyDepth(members[i].1, ascii, d + 1, e + 1); }
      assert PrintedMembers(members, style, d + 1) == PrintedMembers(members, style, e + 1);
    case TNum(literal) =>
      LeafLayouts(literal, "", style, d);
      LeafLayouts(literal, "", style, e);
    case TStr(text) =>
      LeafLayouts(ZeroText(), text, style, d);
      LeafLayouts(ZeroText(), text, style, e);
    case _ =>
      LeafLayouts(ZeroText(), "", style, d);
      LeafLayouts(ZeroText(), "", style, e);
  }

  /** The dump without a blank: items and members joined by commas, the members in the order of their keys. */
  lemma DumpLayout(items: seq<Json>, fields: map<string, Json>, ascii: bool)
    ensures Dump(Arr(items), ascii) == "[" + JoinWith(Dumps(items, ascii), ",") + "]"
    ensures Ascending(Sorted(fields.Keys)) && forall k :: k in Sorted(fields.Keys) <==> k in fields
    ensures Dump(Obj(fields), ascii) == "{" + JoinWith(MemberDumps(fields, Sorted(fields.Keys), ascii), ",") + "}"
  {
    hide Print, Quote, Ascending, Sorted;
    var style, keys := Style(ascii, false), Sorted(fields.Keys);
    SortedAscends(fields.Keys);
    var trees, members := SortedTree(Arr(items)).items, SortedTree(Obj(fields)).members;
    Layouts(trees, members, style, 0);
    forall i | 0 <= i < |items| ensures PrintedItems(trees, style, 1)[i] == Dump(items[i], ascii) {
      PrintAtAnyDepth(trees[i], ascii, 1, 0);
    }
    assert PrintedItems(trees, style, 1) == Dumps(items, ascii);
    forall i | 0 <= i < |keys|
      ensures PrintedMembers(members, style, 1)[i] == MemberDumps(fields, keys, ascii)[i]
    {
      assert keys[i] in keys;
      PrintAtAnyDepth(members[i].1, ascii, 1, 0);
    }
    assert PrintedMembers(members, style, 1) == MemberDumps(fields, keys, ascii);
  }

  /** Numbers and literals are dumped as they are, texts quoted. */
  lemma LeafDumps(literal: NumberText, text: string, ascii: bool)
    ensures Dump(Null, ascii) == "null" && Dump(Bool(true), ascii) == "true" && Dump(Bool(false), ascii) == "false"
    ensures Dump(Num(literal), ascii) == literal && Dump(Str(text), ascii) == Quote(text, ascii)
  {
  }
}
