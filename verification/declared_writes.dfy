// Writing declared entries to the controller: one entry per key, nothing that
// declares no member, one masked call per distinct member set. Port overrides
// are keyed by port index and radios by name; both go through this module.

module DeclaredWrites {
  import opened FieldSets
  import opened Terraform

  // One element of the array a call carries: its key and the struct's members.
  datatype Entry<K> = Entry(key: Option<K>, values: map<string, Wire>)

  // An entry paired with the members the configuration named for it.
  datatype Declared<K> = Declared(entry: Entry<K>, fields: seq<string>)

  // One call: a mask, and the entries that declare exactly that mask.
  datatype Group<K> = Group(mask: seq<string>, entries: seq<Entry<K>>)

  datatype WriteError = NothingDeclared | Refused(at: nat, mask: seq<string>)

  type Cells<!K(==)> = map<(K, string), Wire>

  function Member<K>(e: Entry<K>, m: string): Wire {
    if m in e.values then e.values[m] else Zero
  }

  function Cell<K(==)>(cells: Cells<K>, k: K, m: string): Option<Wire> {
    if (k, m) in cells then Some(cells[(k, m)]) else None
  }

  // What a read shows for a member: the zero when nothing is stored.
  function Stored<K(==)>(kind: Kind, cells: Cells<K>, k: K, m: string): (w: Wire)
    ensures Shaped(kind, w)
  {
    match Cell(cells, k, m)
    case Some(w) => if Shaped(kind, w) then w else ZeroOf(kind)
    case None => ZeroOf(kind)
  }

  // A decoded answer by key; a later entry for a key replaces an earlier one.
  function ByKey<K(==)>(answer: seq<Entry<K>>): map<K, Entry<K>> {
    if answer == [] then map[]
    else
      var e := answer[|answer| - 1];
      var m := ByKey(answer[..|answer| - 1]);
      if e.key.Some? then m[e.key.value := e] else m
  }

  lemma {:induction false} ByKeyIsFromAnswer<K>(answer: seq<Entry<K>>)
    ensures forall k :: k in ByKey(answer) ==> ByKey(answer)[k] in answer && ByKey(answer)[k].key == Some(k)
  {
    if answer != [] { ByKeyIsFromAnswer(answer[..|answer| - 1]); }
  }

  // Where an answer reports a key: the last of its entries for it.
  ghost predicate ReportedAt<K>(answer: seq<Entry<K>>, k: K, i: int) {
    0 <= i < |answer| && answer[i].key == Some(k) && forall j :: i < j < |answer| ==> answer[j].key != Some(k)
  }

  lemma {:induction false} ByKeyIff<K>(answer: seq<Entry<K>>, k: K)
    ensures k in ByKey(answer) <==> exists i :: ReportedAt(answer, k, i)
    ensures forall i :: ReportedAt(answer, k, i) ==> k in ByKey(answer) && ByKey(answer)[k] == answer[i]
  {
    if answer != [] {
      var n := |answer| - 1;
      ByKeyIff(answer[..n], k);
      if answer[n].key == Some(k) {
        assert ReportedAt(answer, k, n);
      } else {
        forall i ensures ReportedAt(answer, k, i) <==> ReportedAt(answer[..n], k, i) {
          assert 0 <= i < n ==> answer[..n][i] == answer[i];
        }
      }
    }
  }

  method IndexByKey<K(==)>(answer: seq<Entry<K>>) returns (byKey: map<K, Entry<K>>)
    ensures byKey == ByKey(answer)
  {
    byKey := map[];
    for i := 0 to |answer|
      invariant byKey == ByKey(answer[..i])
    {
      assert answer[..i + 1][..i] == answer[..i];
      if answer[i].key.Some? {
        byKey := byKey[answer[i].key.value := answer[i]];
      }
    }
    assert answer[..|answer|] == answer;
  }

  // ---------------------------------------------------------------------
  // The controller
  // ---------------------------------------------------------------------

  function Masked<K(==)>(cells: Cells<K>, entries: seq<Entry<K>>, mask: seq<string>): Cells<K> {
    if entries == [] then cells
    else
      var e := entries[|entries| - 1];
      var before := Masked(cells, entries[..|entries| - 1], mask);
      if e.key.None? then before
      else before + map m | m in mask :: (e.key.value, m) := Member(e, m)
  }

  // The controller's stored members, reached through calls that each carry one
  // mask. Calls are numbered; the ones in refused are turned down, and so is
  // any call with an empty mask. A refused call stores nothing.
  class Controller<K(==)> {
    var cells: Cells<K>
    var calls: nat
    const refused: set<nat>

    constructor (cells: Cells<K>, refused: set<nat>)
      ensures this.cells == cells && calls == 0 && this.refused == refused
    {
      this.cells, calls, this.refused := cells, 0, refused;
    }

    method Update(entries: seq<Entry<K>>, mask: seq<string>) returns (ok: bool)
      modifies this
      ensures calls == old(calls) + 1
      ensures ok == (old(calls) !in refused && mask != [])
      ensures cells == if ok then Masked(old(cells), entries, mask) else old(cells)
    {
      ok := calls !in refused && mask != [];
      if ok { cells := Masked(cells, entries, mask); }
      calls := calls + 1;
    }
  }

  // ---------------------------------------------------------------------
  // One entry per key, the last declaration wins
  // ---------------------------------------------------------------------

  function Position<K(==)>(ds: seq<Declared<K>>, k: K): (at: nat)
    ensures at <= |ds|
    ensures at < |ds| ==> ds[at].entry.key == Some(k)
    ensures forall i :: 0 <= i < at ==> ds[i].entry.key != Some(k)
  {
    if ds == [] || ds[0].entry.key == Some(k) then 0 else 1 + Position(ds[1..], k)
  }

  function Keep<K(==)>(out: seq<Declared<K>>, d: Declared<K>): seq<Declared<K>> {
    if d.entry.key.None? then out + [d]
    else
      var at := Position(out, d.entry.key.value);
      if at < |out| then out[at := d] else out + [d]
  }

  function Deduped<K(==)>(ds: seq<Declared<K>>): seq<Declared<K>> {
    if ds == [] then [] else Keep(Deduped(ds[..|ds| - 1]), ds[|ds| - 1])
  }

  // The loop overwrites the slot an index map remembers for a repeated key.
  method DedupeDeclared<K(==)>(declared: seq<Declared<K>>) returns (out: seq<Declared<K>>)
    ensures out == Deduped(declared)
  {
    var seen: map<K, nat> := map[];
    out := [];
    for i := 0 to |declared|
      invariant out == Deduped(declared[..i])
      invariant forall k :: k in seen ==> seen[k] < |out| && out[seen[k]].entry.key == Some(k)
      invariant forall j :: 0 <= j < |out| && out[j].entry.key.Some? ==>
        out[j].entry.key.value in seen && seen[out[j].entry.key.value] == j
    {
      var d := declared[i];
      assert declared[..i + 1][..i] == declared[..i];
      if d.entry.key.None? {
        out := out + [d];
      } else if d.entry.key.value in seen {
        out := out[seen[d.entry.key.value] := d];
      } else {
        seen := seen[d.entry.key.value := |out|];
        out := out + [d];
      }
    }
    assert declared[..|declared|] == declared;
  }

  ghost predicate DistinctKeys<K>(ds: seq<Declared<K>>) {
    forall i, j :: 0 <= i < j < |ds| && ds[i].entry.key.Some? ==> ds[i].entry.key != ds[j].entry.key
  }

  // The fold of right-biased map updates: the last block naming each key.
  function AsMap<K(==)>(ds: seq<Declared<K>>): map<K, Declared<K>> {
    if ds == [] then map[]
    else
      var d := ds[|ds| - 1];
      var m := AsMap(ds[..|ds| - 1]);
      if d.entry.key.None? then m else m[d.entry.key.value := d]
  }

  // Every key in the order of its first appearance, key-less entries in place.
  function FirstAppearances<K(==)>(ds: seq<Declared<K>>): seq<Option<K>> {
    if ds == [] then []
    else
      var k := ds[|ds| - 1].entry.key;
      var ks := FirstAppearances(ds[..|ds| - 1]);
      if k.Some? && k in ks then ks else ks + [k]
  }

  function KeysOf<K>(ds: seq<Declared<K>>): seq<Option<K>> {
    seq(|ds|, i requires 0 <= i < |ds| => ds[i].entry.key)
  }

  function Keyless<K>(ds: seq<Declared<K>>): seq<Declared<K>> {
    if ds == [] then []
    else if ds[|ds| - 1].entry.key.None? then Keyless(ds[..|ds| - 1]) + [ds[|ds| - 1]]
    else Keyless(ds[..|ds| - 1])
  }

  // The map holds, for each key, the last entry naming it.
  lemma {:induction false} AsMapIsLast<K>(ds: seq<Declared<K>>, i: nat)
    requires i < |ds| && ds[i].entry.key.Some?
    requires forall j :: i < j < |ds| ==> ds[j].entry.key != ds[i].entry.key
    ensures ds[i].entry.key.value in AsMap(ds) && AsMap(ds)[ds[i].entry.key.value] == ds[i]
  {
    if i < |ds| - 1 {
      AsMapIsLast(ds[..|ds| - 1], i);
    }
  }

  lemma {:induction false} AsMapIsFromList<K>(ds: seq<Declared<K>>, k: K)
    requires k in AsMap(ds)
    ensures AsMap(ds)[k] in ds && AsMap(ds)[k].entry.key == Some(k)
  {
    if ds[|ds| - 1].entry.key != Some(k) {
      AsMapIsFromList(ds[..|ds| - 1], k);
    }
  }

  lemma {:induction false} KeepAsMap<K>(out: seq<Declared<K>>, d: Declared<K>)
    requires DistinctKeys(out)
    ensures DistinctKeys(Keep(out, d))
    ensures AsMap(Keep(out, d)) == AsMap(out + [d])
  {
    assert (out + [d])[..|out|] == out;
    if d.entry.key.Some? && Position(out, d.entry.key.value) < |out| {
      var at := Position(out, d.entry.key.value);
      OverwriteAsMap(out, at, d);
    }
  }

  lemma {:induction false} OverwriteAsMap<K>(out: seq<Declared<K>>, at: nat, d: Declared<K>)
    requires DistinctKeys(out) && at < |out| && d.entry.key.Some? && out[at].entry.key == d.entry.key
    ensures AsMap(out[at := d]) == AsMap(out)[d.entry.key.value := d]
  {
    var n := |out| - 1;
    if at < n {
      OverwriteAsMap(out[..n], at, d);
      assert out[at := d][..n] == out[..n][at := d];
    } else {
      assert out[at := d][..n] == out[..n];
    }
  }

  lemma KeylessOverwrite<K>(out: seq<Declared<K>>, at: nat, d: Declared<K>)
    requires at < |out| && d.entry.key.Some? && out[at].entry.key == d.entry.key
    ensures Keyless(out[at := d]) == Keyless(out)
    decreases |out|
  {
    var n := |out| - 1;
    if at < n {
      assert out[at := d][..n] == out[..n][at := d];
      KeylessOverwrite(out[..n], at, d);
    } else {
      assert out[at := d][..n] == out[..n];
    }
  }

  lemma {:induction false} DedupeAsMap<K>(ds: seq<Declared<K>>)
    ensures DistinctKeys(Deduped(ds))
    ensures AsMap(Deduped(ds)) == AsMap(ds)
  {
    if ds != [] {
      var n := |ds| - 1;
      DedupeAsMap(ds[..n]);
      KeepAsMap(Deduped(ds[..n]), ds[n]);
      assert (Deduped(ds[..n]) + [ds[n]])[..|Deduped(ds[..n])|] == Deduped(ds[..n]);
    }
  }

  lemma {:induction false} DedupeOrder<K>(ds: seq<Declared<K>>)
    ensures KeysOf(Deduped(ds)) == FirstAppearances(ds)
    ensures Keyless(Deduped(ds)) == Keyless(ds)
    ensures forall d :: d in Deduped(ds) ==> d in ds
  {
    if ds != [] {
      var n := |ds| - 1;
      DedupeOrder(ds[..n]);
      KeepOrder(Deduped(ds[..n]), ds[n]);
    }
  }

  lemma KeepOrder<K>(out: seq<Declared<K>>, d: Declared<K>)
    ensures d.entry.key.Some? && d.entry.key in KeysOf(out) ==> KeysOf(Keep(out, d)) == KeysOf(out)
    ensures !(d.entry.key.Some? && d.entry.key in KeysOf(out)) ==>
      KeysOf(Keep(out, d)) == KeysOf(out) + [d.entry.key]
    ensures Keyless(Keep(out, d)) == if d.entry.key.None? then Keyless(out) + [d] else Keyless(out)
    ensures forall e :: e in Keep(out, d) ==> e in out || e == d
  {
    assert (out + [d])[..|out|] == out;
    assert KeysOf(out + [d]) == KeysOf(out) + [d.entry.key];
    if d.entry.key.Some? {
      var at := Position(out, d.entry.key.value);
      if at < |out| {
        KeylessOverwrite(out, at, d);
        assert KeysOf(out)[at] == d.entry.key;
        assert KeysOf(out[at := d]) == KeysOf(out);
      } else if j :| 0 <= j < |out| && KeysOf(out)[j] == d.entry.key {
        assert false;
      }
    }
  }

  // Dedupe keeps one entry per key, holding the last declaration in the slot of
  // the first, and every key-less entry; as a map it is the map of its input.
  lemma DedupeKeepsLast<K>(ds: seq<Declared<K>>)
    ensures DistinctKeys(Deduped(ds))
    ensures AsMap(Deduped(ds)) == AsMap(ds)
    ensures KeysOf(Deduped(ds)) == FirstAppearances(ds)
    ensures Keyless(Deduped(ds)) == Keyless(ds)
    ensures forall d :: d in Deduped(ds) ==> d in ds
  {
    DedupeAsMap(ds);
    DedupeOrder(ds);
  }

  // ---------------------------------------------------------------------
  // Entries that declare nothing are not sent
  // ---------------------------------------------------------------------

  // A port entry is sent when it declares something; a radio entry must also
  // have a name (keyed).
  predicate Sendable<K>(d: Declared<K>, keyed: bool) {
    d.fields != [] && (keyed ==> d.entry.key.Some?)
  }

  function WithFields<K>(ds: seq<Declared<K>>, keyed: bool): seq<Declared<K>> {
    if ds == [] then []
    else if Sendable(ds[|ds| - 1], keyed) then WithFields(ds[..|ds| - 1], keyed) + [ds[|ds| - 1]]
    else WithFields(ds[..|ds| - 1], keyed)
  }

  method DeclaredWithFields<K>(declared: seq<Declared<K>>, keyed: bool) returns (out: seq<Declared<K>>)
    ensures out == WithFields(declared, keyed)
  {
    out := [];
    for i := 0 to |declared|
      invariant out == WithFields(declared[..i], keyed)
    {
      assert declared[..i + 1][..i] == declared[..i];
      if |declared[i].fields| == 0 || (keyed && declared[i].entry.key.None?) { continue; }
      out := out + [declared[i]];
    }
    assert declared[..|declared|] == declared;
  }

  lemma {:induction false} WithFieldsIff<K>(ds: seq<Declared<K>>, keyed: bool, d: Declared<K>)
    ensures d in WithFields(ds, keyed) <==> d in ds && d.fields != [] && (keyed ==> d.entry.key.Some?)
  {
    if ds != [] {
      var n := |ds| - 1;
      WithFieldsIff(ds[..n], keyed, d);
      assert d in ds <==> d in ds[..n] || d == ds[n];
    }
  }

  lemma {:induction false} WithFieldsDistinct<K>(ds: seq<Declared<K>>, keyed: bool)
    requires DistinctKeys(ds)
    ensures DistinctKeys(WithFields(ds, keyed))
  {
    if ds != [] {
      var n := |ds| - 1;
      WithFieldsDistinct(ds[..n], keyed);
      var kept := WithFields(ds[..n], keyed);
      forall i | 0 <= i < |kept| && kept[i].entry.key.Some? ensures kept[i].entry.key != ds[n].entry.key {
        WithFieldsIff(ds[..n], keyed, kept[i]);
      }
    }
  }

  // What is sent under a key is its last block, if that declares anything.
  lemma {:induction false} WithFieldsAsMap<K>(ds: seq<Declared<K>>, keyed: bool, k: K)
    requires DistinctKeys(ds)
    ensures k in AsMap(WithFields(ds, keyed)) <==> k in AsMap(ds) && AsMap(ds)[k].fields != []
    ensures k in AsMap(WithFields(ds, keyed)) ==> AsMap(WithFields(ds, keyed))[k] == AsMap(ds)[k]
  {
    if ds != [] {
      var n := |ds| - 1;
      WithFieldsAsMap(ds[..n], keyed, k);
      var kept := WithFields(ds[..n], keyed);
      if ds[n].entry.key == Some(k) { LastKeyIsNew(ds); }
      if Sendable(ds[n], keyed) {
        assert WithFields(ds, keyed)[..|kept|] == kept;
      } else {
        assert WithFields(ds, keyed) == kept;
      }
    }
  }

  lemma LastKeyIsNew<K>(ds: seq<Declared<K>>)
    requires DistinctKeys(ds) && ds != [] && ds[|ds| - 1].entry.key.Some?
    ensures ds[|ds| - 1].entry.key.value !in AsMap(ds[..|ds| - 1])
  {
    var k := ds[|ds| - 1].entry.key.value;
    if k in AsMap(ds[..|ds| - 1]) {
      AsMapIsFromList(ds[..|ds| - 1], k);
    }
  }

  // ---------------------------------------------------------------------
  // One group per distinct member set
  // ---------------------------------------------------------------------

  function Key<K>(d: Declared<K>): string {
    GroupKey(d.fields)
  }

  function GroupKeys<K>(ds: seq<Declared<K>>): seq<string> {
    if ds == [] then []
    else
      var ks := GroupKeys(ds[..|ds| - 1]);
      if Key(ds[|ds| - 1]) in ks then ks else ks + [Key(ds[|ds| - 1])]
  }

  function GroupFor<K>(ds: seq<Declared<K>>, key: string): Group<K>
    requires key in GroupKeys(ds)
  {
    var before, d := ds[..|ds| - 1], ds[|ds| - 1];
    if Key(d) != key then GroupFor(before, key)
    else if key in GroupKeys(before) then
      var g := GroupFor(before, key);
      Group(g.mask, g.entries + [d.entry])
    else Group(Canonical(d.fields), [d.entry])
  }

  function Grouped<K>(ds: seq<Declared<K>>): seq<Group<K>> {
    var ks := GroupKeys(ds);
    seq(|ks|, g requires 0 <= g < |ks| => GroupFor(ds, ks[g]))
  }

  method GroupByFieldSet<K>(declared: seq<Declared<K>>) returns (out: seq<Group<K>>)
    ensures out == Grouped(declared)
  {
    var order: seq<string> := [];
    var byKey: map<string, Group<K>> := map[];
    for i := 0 to |declared|
      invariant order == GroupKeys(declared[..i])
      invariant forall key :: key in byKey <==> key in order
      invariant forall key :: key in order ==> byKey[key] == GroupFor(declared[..i], key)
    {
      var d := declared[i];
      assert declared[..i + 1][..i] == declared[..i];
      var fields := Compact(Sort(d.fields));
      var key := Join(fields);
      if key !in byKey {
        byKey := byKey[key := Group(fields, [])];
        order := order + [key];
      }
      byKey := byKey[key := Group(byKey[key].mask, byKey[key].entries + [d.entry])];
    }
    assert declared[..|declared|] == declared;
    out := [];
    for j := 0 to |order|
      invariant |out| == j
      invariant forall g :: 0 <= g < j ==> out[g] == GroupFor(declared, order[g])
    {
      out := out + [byKey[order[j]]];
    }
  }

  // What grouping is for, said without keys: the entries declaring exactly s.
  function Declaring<K>(ds: seq<Declared<K>>, s: set<string>): seq<Entry<K>> {
    if ds == [] then []
    else
      var d := ds[|ds| - 1];
      var es := Declaring(ds[..|ds| - 1], s);
      if Elements(d.fields) == s then es + [d.entry] else es
  }

  function FirstDeclaring<K>(ds: seq<Declared<K>>, s: set<string>): (at: nat)
    ensures at <= |ds|
    ensures at < |ds| ==> Elements(ds[at].fields) == s
    ensures forall i :: 0 <= i < at ==> Elements(ds[i].fields) != s
  {
    if ds == [] || Elements(ds[0].fields) == s then 0 else 1 + FirstDeclaring(ds[1..], s)
  }

  ghost predicate AllWireNames<K>(ds: seq<Declared<K>>) {
    forall d :: d in ds ==> WireNames(d.fields)
  }

  function MaskSet<K>(g: Group<K>): set<string> {
    Elements(g.mask)
  }

  lemma {:induction false} GroupKeysAreKeys<K>(ds: seq<Declared<K>>, key: string)
    ensures key in GroupKeys(ds) <==> exists d :: d in ds && Key(d) == key
  {
    if ds != [] {
      var n := |ds| - 1;
      GroupKeysAreKeys(ds[..n], key);
      assert forall d :: d in ds <==> d in ds[..n] || d == ds[n];
    }
  }

  lemma {:induction false} GroupKeysDistinct<K>(ds: seq<Declared<K>>)
    ensures forall g, h :: 0 <= g < h < |GroupKeys(ds)| ==> GroupKeys(ds)[g] != GroupKeys(ds)[h]
  {
    if ds != [] { GroupKeysDistinct(ds[..|ds| - 1]); }
  }

  // A group's mask is the strictly sorted list of the set every member
  // declares, and its entries are all the entries declaring it, in order.
  lemma {:induction false} GroupForIsDeclaring<K>(ds: seq<Declared<K>>, key: string)
    requires AllWireNames(ds) && key in GroupKeys(ds)
    ensures var g := GroupFor(ds, key);
      StrictlyAscending(g.mask) && Join(g.mask) == key && WireNames(g.mask) &&
      g.entries == Declaring(ds, MaskSet(g)) && g.entries != []
  {
    var n := |ds| - 1;
    var before, d := ds[..n], ds[n];
    assert d in ds;
    CanonicalListsTheSet(d.fields);
    assert forall x :: x in Canonical(d.fields) ==> x in Elements(d.fields);
    if key in GroupKeys(before) {
      GroupForIsDeclaring(before, key);
      var g := GroupFor(before, key);
      KeyNamesMask(d.fields, g.mask);
    } else {
      NoneDeclaring(before, d.fields);
    }
  }

  lemma KeyNamesMask(fields: seq<string>, mask: seq<string>)
    requires WireNames(fields) && WireNames(mask) && StrictlyAscending(mask)
    ensures GroupKey(fields) == Join(mask) <==> Elements(fields) == Elements(mask)
  {
    CanonicalListsTheSet(mask);
    AscendingListIsUnique(Canonical(mask), mask);
    GroupKeyIff(fields, mask);
  }

  lemma {:induction false} NoneDeclaring<K>(ds: seq<Declared<K>>, fields: seq<string>)
    requires AllWireNames(ds) && WireNames(fields) && GroupKey(fields) !in GroupKeys(ds)
    ensures Declaring(ds, Elements(Canonical(fields))) == []
  {
    CanonicalListsTheSet(fields);
    if ds != [] {
      NoneDeclaring(ds[..|ds| - 1], fields);
      assert ds[|ds| - 1] in ds;
      GroupKeyIff(ds[|ds| - 1].fields, fields);
    }
  }

  // Two entries go to the same group exactly when they declare the same set,
  // whatever the order or repetition in their lists.
  lemma SharedGroupIff<K>(ds: seq<Declared<K>>, i: nat, j: nat, g: nat, h: nat)
    requires AllWireNames(ds) && i < |ds| && j < |ds| && g < |GroupKeys(ds)| && h < |GroupKeys(ds)|
    requires GroupKeys(ds)[g] == Key(ds[i]) && GroupKeys(ds)[h] == Key(ds[j])
    ensures g == h <==> Elements(ds[i].fields) == Elements(ds[j].fields)
    ensures ds[i].entry in Grouped(ds)[g].entries && ds[j].entry in Grouped(ds)[h].entries
  {
    assert ds[i] in ds && ds[j] in ds;
    GroupKeyIff(ds[i].fields, ds[j].fields);
    GroupKeysDistinct(ds);
    GroupForIsDeclaring(ds, Key(ds[i]));
    GroupForIsDeclaring(ds, Key(ds[j]));
    KeyNamesMask(ds[i].fields, Grouped(ds)[g].mask);
    KeyNamesMask(ds[j].fields, Grouped(ds)[h].mask);
    DeclaringIff(ds, MaskSet(Grouped(ds)[g]), ds[i].entry);
    DeclaringIff(ds, MaskSet(Grouped(ds)[h]), ds[j].entry);
  }

  lemma GroupOf<K>(ds: seq<Declared<K>>, i: nat) returns (g: nat)
    requires AllWireNames(ds) && i < |ds|
    ensures g < |Grouped(ds)| && MaskSet(Grouped(ds)[g]) == Elements(ds[i].fields)
    ensures GroupKeys(ds)[g] == Key(ds[i])
  {
    assert ds[i] in ds;
    GroupKeysAreKeys(ds, Key(ds[i]));
    g :| 0 <= g < |GroupKeys(ds)| && GroupKeys(ds)[g] == Key(ds[i]);
    GroupForIsDeclaring(ds, Key(ds[i]));
    KeyNamesMask(ds[i].fields, Grouped(ds)[g].mask);
  }

  lemma {:induction false} GroupOrder<K>(ds: seq<Declared<K>>, g: nat, h: nat)
    requires AllWireNames(ds) && g < h < |GroupKeys(ds)|
    ensures FirstDeclaring(ds, MaskSet(Grouped(ds)[g])) < FirstDeclaring(ds, MaskSet(Grouped(ds)[h])) < |ds|
  {
    var n := |ds| - 1;
    var before, d := ds[..n], ds[n];
    var ks := GroupKeys(before);
    var sg, sh := MaskSet(Grouped(ds)[g]), MaskSet(Grouped(ds)[h]);
    SameMask(ds, g);
    FirstDeclaringGrows(ds, sg);
    FirstDeclaringGrows(ds, sh);
    if h < |ks| {
      SameMask(ds, h);
      GroupOrder(before, g, h);
    } else {
      GroupForIsDeclaring(ds, GroupKeys(ds)[h]);
      assert d in ds;
      KeyNamesMask(d.fields, Grouped(ds)[h].mask);
      FirstInGroup(before, g);
      forall i | 0 <= i < n ensures Elements(ds[i].fields) != sh {
        assert ds[i] in ds;
        KeyNamesMask(ds[i].fields, Grouped(ds)[h].mask);
        GroupKeysAreKeys(before, GroupKeys(ds)[h]);
        assert before[i] == ds[i] && before[i] in before;
      }
    }
  }

  lemma SameMask<K>(ds: seq<Declared<K>>, g: nat)
    requires ds != [] && g < |GroupKeys(ds[..|ds| - 1])|
    ensures g < |GroupKeys(ds)| && GroupKeys(ds)[g] == GroupKeys(ds[..|ds| - 1])[g]
    ensures Grouped(ds)[g].mask == Grouped(ds[..|ds| - 1])[g].mask
  {
  }

  lemma FirstInGroup<K>(ds: seq<Declared<K>>, g: nat)
    requires AllWireNames(ds) && g < |Grouped(ds)|
    ensures FirstDeclaring(ds, MaskSet(Grouped(ds)[g])) < |ds|
  {
    var key := GroupKeys(ds)[g];
    GroupKeysAreKeys(ds, key);
    var d :| d in ds && Key(d) == key;
    GroupForIsDeclaring(ds, key);
    KeyNamesMask(d.fields, Grouped(ds)[g].mask);
  }

  lemma FirstDeclaringGrows<K>(ds: seq<Declared<K>>, s: set<string>)
    requires ds != []
    ensures FirstDeclaring(ds[..|ds| - 1], s) < |ds| - 1 ==>
      FirstDeclaring(ds, s) == FirstDeclaring(ds[..|ds| - 1], s)
  {
    var a, b := FirstDeclaring(ds[..|ds| - 1], s), FirstDeclaring(ds, s);
    if a < |ds| - 1 {
      assert ds[a] == ds[..|ds| - 1][a];
      assert b <= a < |ds| - 1;
      assert ds[..|ds| - 1][b] == ds[b];
    }
  }

  // Grouping is a stable partition by declared set: every mask is strictly
  // sorted and different from the others, a group holds exactly the entries
  // declaring its mask in their original order, every entry has its group,
  // groups follow first appearance, and there is one call per distinct set.
  lemma GroupingIsStablePartition<K>(ds: seq<Declared<K>>)
    requires AllWireNames(ds)
    ensures forall g :: 0 <= g < |Grouped(ds)| ==>
      StrictlyAscending(Grouped(ds)[g].mask) && Grouped(ds)[g].entries != [] &&
      Grouped(ds)[g].entries == Declaring(ds, MaskSet(Grouped(ds)[g]))
    ensures forall g, h :: 0 <= g < h < |Grouped(ds)| ==>
      MaskSet(Grouped(ds)[g]) != MaskSet(Grouped(ds)[h]) &&
      FirstDeclaring(ds, MaskSet(Grouped(ds)[g])) < FirstDeclaring(ds, MaskSet(Grouped(ds)[h]))
    ensures forall i :: 0 <= i < |ds| ==>
      exists g :: 0 <= g < |Grouped(ds)| && MaskSet(Grouped(ds)[g]) == Elements(ds[i].fields)
    ensures |Grouped(ds)| == |set i | 0 <= i < |ds| :: Elements(ds[i].fields)|
  {
    var gs := Grouped(ds);
    forall g | 0 <= g < |gs|
      ensures StrictlyAscending(gs[g].mask) && gs[g].entries != [] && gs[g].entries == Declaring(ds, MaskSet(gs[g]))
    {
      GroupForIsDeclaring(ds, GroupKeys(ds)[g]);
    }
    forall g, h | 0 <= g < h < |gs|
      ensures MaskSet(gs[g]) != MaskSet(gs[h])
      ensures FirstDeclaring(ds, MaskSet(gs[g])) < FirstDeclaring(ds, MaskSet(gs[h]))
    {
      GroupOrder(ds, g, h);
    }
    forall i | 0 <= i < |ds| ensures exists g :: 0 <= g < |gs| && MaskSet(gs[g]) == Elements(ds[i].fields) {
      var _ := GroupOf(ds, i);
    }
    CallCount(ds);
  }

  lemma CallCount<K>(ds: seq<Declared<K>>)
    requires AllWireNames(ds)
    ensures |Grouped(ds)| == |set i | 0 <= i < |ds| :: Elements(ds[i].fields)|
  {
    var gs := Grouped(ds);
    var masks := seq(|gs|, g requires 0 <= g < |gs| => MaskSet(gs[g]));
    var sets := set i | 0 <= i < |ds| :: Elements(ds[i].fields);
    forall g, h | 0 <= g < h < |gs| ensures masks[g] != masks[h] { GroupOrder(ds, g, h); }
    CountDistinct(masks);
    forall s ensures s in sets <==> s in masks {
      if i :| 0 <= i < |ds| && Elements(ds[i].fields) == s {
        var g := GroupOf(ds, i);
        assert masks[g] == s;
      }
      if g :| 0 <= g < |gs| && masks[g] == s { FirstInGroup(ds, g); }
    }
    assert sets == set g | 0 <= g < |masks| :: masks[g];
  }

  lemma {:induction false} CountDistinct<T>(s: seq<T>)
    requires forall i, j :: 0 <= i < j < |s| ==> s[i] != s[j]
    ensures |set i | 0 <= i < |s| :: s[i]| == |s|
  {
    var all := set i | 0 <= i < |s| :: s[i];
    if s != [] {
      var n := |s| - 1;
      CountDistinct(s[..n]);
      assert all == (set i | 0 <= i < n :: s[..n][i]) + {s[n]};
    } else {
      assert all == {};
    }
  }

  // ---------------------------------------------------------------------
  // The call loop
  // ---------------------------------------------------------------------

  function CallAll<K(==)>(cells: Cells<K>, gs: seq<Group<K>>): Cells<K> {
    if gs == [] then cells
    else Masked(CallAll(cells, gs[..|gs| - 1]), gs[|gs| - 1].entries, gs[|gs| - 1].mask)
  }

  // Whether the controller turns down one of n calls starting at first.
  ghost predicate RefusesAny(refused: set<nat>, first: nat, n: nat) {
    exists c :: c in refused && first <= c < first + n
  }

  method UpdateGrouped<K(==)>(controller: Controller<K>, declared: seq<Declared<K>>)
    returns (r: Result<Cells<K>, WriteError>)
    modifies controller
    ensures declared == [] ==> r == Err(NothingDeclared) && controller.calls == old(controller.calls)
    ensures r == Err(NothingDeclared) ==> declared == [] && controller.cells == old(controller.cells)
    ensures r.Ok? ==>
      r.value == controller.cells == CallAll(old(controller.cells), Grouped(declared)) &&
      controller.calls == old(controller.calls) + |Grouped(declared)| &&
      !RefusesAny(controller.refused, old(controller.calls), |Grouped(declared)|)
    ensures r.Err? && r.error.Refused? ==>
      r.error.at < |Grouped(declared)| && r.error.mask == Grouped(declared)[r.error.at].mask &&
      controller.calls == old(controller.calls) + r.error.at + 1 &&
      controller.cells == CallAll(old(controller.cells), Grouped(declared)[..r.error.at]) &&
      (controller.calls - 1 in controller.refused || r.error.mask == [])
  {
    var groups := GroupByFieldSet(declared);
    if |groups| == 0 {
      GroupKeysEmpty(declared);
      return Err(NothingDeclared);
    }
    var updated := controller.cells;
    assert groups[..0] == [];
    for i := 0 to |groups|
      invariant controller.calls == old(controller.calls) + i
      invariant updated == controller.cells == CallAll(old(controller.cells), groups[..i])
      invariant !RefusesAny(controller.refused, old(controller.calls), i)
    {
      assert groups[..i + 1][..i] == groups[..i];
      var ok := controller.Update(groups[i].entries, groups[i].mask);
      if !ok {
        return Err(Refused(i, groups[i].mask));
      }
      updated := controller.cells;
    }
    assert groups[..|groups|] == groups;
    return Ok(updated);
  }

  lemma GroupKeysEmpty<K>(ds: seq<Declared<K>>)
    ensures Grouped(ds) == [] <==> ds == []
  {
    if ds != [] {
      assert ds[0] in ds;
      GroupKeysAreKeys(ds, Key(ds[0]));
    }
  }

  predicate HasKey<K(==)>(es: seq<Entry<K>>, k: K) {
    exists j :: 0 <= j < |es| && es[j].key == Some(k)
  }

  function LastWith<K(==)>(es: seq<Entry<K>>, k: K): (e: Entry<K>)
    requires HasKey(es, k)
    ensures e in es && e.key == Some(k)
    ensures es[|es| - 1].key == Some(k) ==> e == es[|es| - 1]
  {
    if es[|es| - 1].key == Some(k) then es[|es| - 1] else LastWith(es[..|es| - 1], k)
  }

  // A call overwrites exactly its entries crossed with its mask, at the zero
  // value for a masked member the entry never assigned.
  lemma {:induction false} MaskedCell<K>(cells: Cells<K>, es: seq<Entry<K>>, mask: seq<string>, k: K, m: string)
    ensures Cell(Masked(cells, es, mask), k, m) ==
      if m in mask && HasKey(es, k) then Some(Member(LastWith(es, k), m)) else Cell(cells, k, m)
  {
    if es != [] {
      var n := |es| - 1;
      MaskedCell(cells, es[..n], mask, k, m);
      if es[n].key != Some(k) && HasKey(es, k) {
        var j :| 0 <= j < |es| && es[j].key == Some(k);
        assert es[..n][j].key == Some(k);
      }
      if j :| 0 <= j < n && es[..n][j].key == Some(k) {
        assert es[j].key == Some(k);
      }
    }
  }

  lemma {:induction false} CallAllUntouched<K>(cells: Cells<K>, gs: seq<Group<K>>, k: K, m: string)
    requires forall i :: 0 <= i < |gs| ==> !HasKey(gs[i].entries, k)
    ensures Cell(CallAll(cells, gs), k, m) == Cell(cells, k, m)
  {
    if gs != [] {
      var n := |gs| - 1;
      CallAllUntouched(cells, gs[..n], k, m);
      MaskedCell(CallAll(cells, gs[..n]), gs[n].entries, gs[n].mask, k, m);
    }
  }

  lemma {:induction false} CallAllTouched<K>(cells: Cells<K>, gs: seq<Group<K>>, i: nat, k: K, m: string)
    requires i < |gs| && HasKey(gs[i].entries, k)
    requires forall j :: 0 <= j < |gs| && j != i ==> !HasKey(gs[j].entries, k)
    ensures Cell(CallAll(cells, gs), k, m) ==
      if m in gs[i].mask then Some(Member(LastWith(gs[i].entries, k), m)) else Cell(cells, k, m)
  {
    var n := |gs| - 1;
    MaskedCell(CallAll(cells, gs[..n]), gs[n].entries, gs[n].mask, k, m);
    if i < n {
      CallAllTouched(cells, gs[..n], i, k, m);
    } else {
      CallAllUntouched(cells, gs[..n], k, m);
    }
  }

  // The per-key overlay the write is meant to be: each member the last block
  // naming the key declares, and nothing else.
  function Overlay<K(==)>(before: Cells<K>, ds: seq<Declared<K>>, k: K, m: string): Option<Wire> {
    if k in AsMap(ds) && m in AsMap(ds)[k].fields
    then Some(Member(AsMap(ds)[k].entry, m))
    else Cell(before, k, m)
  }

  ghost predicate IsOverlay<K(!new)>(before: Cells<K>, ds: seq<Declared<K>>, after: Cells<K>) {
    forall k, m :: Cell(after, k, m) == Overlay(before, ds, k, m)
  }

  lemma {:induction false} DeclaringIff<K>(ds: seq<Declared<K>>, s: set<string>, e: Entry<K>)
    ensures e in Declaring(ds, s) <==> exists i :: 0 <= i < |ds| && ds[i].entry == e && Elements(ds[i].fields) == s
  {
    if ds != [] {
      var n := |ds| - 1;
      DeclaringIff(ds[..n], s, e);
      if i :| 0 <= i < |ds| && ds[i].entry == e && Elements(ds[i].fields) == s {
        if i < n { assert ds[..n][i] == ds[i]; }
      }
    }
  }

  lemma OneMaskCell<K>(before: Cells<K>, ds: seq<Declared<K>>, mask: seq<string>, k: K, m: string)
    requires DistinctKeys(ds)
    ensures Cell(Masked(before, EntriesOf(ds), mask), k, m) ==
      if m in mask && k in AsMap(ds) then Some(Member(AsMap(ds)[k].entry, m)) else Cell(before, k, m)
  {
    var es := EntriesOf(ds);
    MaskedCell(before, es, mask, k, m);
    if j :| 0 <= j < |es| && es[j].key == Some(k) { MapHasKey(ds, j); }
    if k in AsMap(ds) {
      var i := MapPosition(ds, k);
      assert es[i].key == Some(k);
      var e := LastWith(es, k);
      var j :| 0 <= j < |es| && es[j] == e;
      assert ds[j].entry.key == ds[i].entry.key;
    }
  }

  lemma OneMaskIsNeeded<K(!new)>(ds: seq<Declared<K>>, mask: seq<string>, i: nat)
    requires DistinctKeys(ds) && i < |ds| && ds[i].entry.key.Some?
    requires IsOverlay(map[], ds, Masked(map[], EntriesOf(ds), mask))
    ensures Elements(ds[i].fields) == Elements(mask)
  {
    var k := ds[i].entry.key.value;
    MapHasKey(ds, i);
    var at := MapPosition(ds, k);
    var after := Masked(map[], EntriesOf(ds), mask);
    forall m ensures m in ds[i].fields <==> m in mask {
      OneMaskCell(map[], ds, mask, k, m);
      assert Cell(after, k, m) == Overlay(map[], ds, k, m);
    }
  }

  // Sending every entry under one mask writes the overlay, whatever the
  // controller held before.
  ghost predicate OneMaskWorks<K(!new)>(ds: seq<Declared<K>>, mask: seq<string>) {
    forall before: Cells<K> :: IsOverlay(before, ds, Masked(before, EntriesOf(ds), mask))
  }

  ghost predicate AllDeclare<K>(ds: seq<Declared<K>>, mask: seq<string>) {
    forall i :: 0 <= i < |ds| ==> Elements(ds[i].fields) == Elements(mask)
  }

  // Why grouping is needed: entries can share one call exactly when each of
  // them declares the whole mask and nothing else.
  lemma OneMaskIff<K(!new)>(ds: seq<Declared<K>>, mask: seq<string>)
    requires DistinctKeys(ds) && forall d :: d in ds ==> d.entry.key.Some?
    ensures OneMaskWorks(ds, mask) <==> AllDeclare(ds, mask)
  {
    if OneMaskWorks(ds, mask) {
      forall i | 0 <= i < |ds| ensures Elements(ds[i].fields) == Elements(mask) {
        assert ds[i] in ds;
        OneMaskIsNeeded(ds, mask, i);
      }
    }
    if AllDeclare(ds, mask) {
      forall before: Cells<K> ensures IsOverlay(before, ds, Masked(before, EntriesOf(ds), mask)) {
        OneMaskSuffices(before, ds, mask);
      }
    }
  }

  lemma OneMaskSuffices<K(!new)>(before: Cells<K>, ds: seq<Declared<K>>, mask: seq<string>)
    requires DistinctKeys(ds)
    requires forall i :: 0 <= i < |ds| ==> Elements(ds[i].fields) == Elements(mask)
    ensures IsOverlay(before, ds, Masked(before, EntriesOf(ds), mask))
  {
    forall k, m ensures Cell(Masked(before, EntriesOf(ds), mask), k, m) == Overlay(before, ds, k, m) {
      OneMaskCell(before, ds, mask, k, m);
      if k in AsMap(ds) {
        var at := MapPosition(ds, k);
        assert m in ds[at].fields <==> m in Elements(ds[at].fields);
        assert m in mask <==> m in Elements(mask);
      }
    }
  }

  function EntriesOf<K>(ds: seq<Declared<K>>): seq<Entry<K>> {
    seq(|ds|, i requires 0 <= i < |ds| => ds[i].entry)
  }

  // With distinct keys, a key lives in the one group of its declared set.
  lemma KeyInOneGroup<K>(ds: seq<Declared<K>>, i: nat, g: nat)
    requires DistinctKeys(ds) && AllWireNames(ds)
    requires i < |ds| && ds[i].entry.key.Some? && g < |Grouped(ds)|
    ensures HasKey(Grouped(ds)[g].entries, ds[i].entry.key.value) <==>
      MaskSet(Grouped(ds)[g]) == Elements(ds[i].fields)
    ensures HasKey(Grouped(ds)[g].entries, ds[i].entry.key.value) ==>
      LastWith(Grouped(ds)[g].entries, ds[i].entry.key.value) == ds[i].entry
  {
    var grp, k := Grouped(ds)[g], ds[i].entry.key.value;
    GroupForIsDeclaring(ds, GroupKeys(ds)[g]);
    if HasKey(grp.entries, k) {
      var e := LastWith(grp.entries, k);
      DeclaringIff(ds, MaskSet(grp), e);
      var j :| 0 <= j < |ds| && ds[j].entry == e && Elements(ds[j].fields) == MaskSet(grp);
      assert j == i;
    }
    if MaskSet(grp) == Elements(ds[i].fields) {
      DeclaringIff(ds, MaskSet(grp), ds[i].entry);
    }
  }

  lemma KeyInNoGroup<K>(ds: seq<Declared<K>>, k: K, g: nat)
    requires AllWireNames(ds) && k !in AsMap(ds) && g < |Grouped(ds)|
    ensures !HasKey(Grouped(ds)[g].entries, k)
  {
    var grp := Grouped(ds)[g];
    GroupForIsDeclaring(ds, GroupKeys(ds)[g]);
    if HasKey(grp.entries, k) {
      var e := LastWith(grp.entries, k);
      DeclaringIff(ds, MaskSet(grp), e);
      var j :| 0 <= j < |ds| && ds[j].entry == e && Elements(ds[j].fields) == MaskSet(grp);
      MapHasKey(ds, j);
    }
  }

  lemma {:induction false} MapHasKey<K>(ds: seq<Declared<K>>, j: nat)
    requires j < |ds| && ds[j].entry.key.Some?
    ensures ds[j].entry.key.value in AsMap(ds)
  {
    if j < |ds| - 1 { MapHasKey(ds[..|ds| - 1], j); }
  }

  lemma MapPosition<K>(ds: seq<Declared<K>>, k: K) returns (i: nat)
    requires DistinctKeys(ds) && k in AsMap(ds)
    ensures i < |ds| && ds[i] == AsMap(ds)[k] && ds[i].entry.key == Some(k)
  {
    AsMapIsFromList(ds, k);
    i :| 0 <= i < |ds| && ds[i] == AsMap(ds)[k];
  }

  // The calls in a chosen order.
  function Reordered<K>(gs: seq<Group<K>>, order: seq<nat>): seq<Group<K>>
    requires forall i :: 0 <= i < |order| ==> order[i] < |gs|
  {
    seq(|order|, i requires 0 <= i < |order| => gs[order[i]])
  }

  ghost predicate Selection(order: seq<nat>, n: nat) {
    (forall i :: 0 <= i < |order| ==> order[i] < n) &&
    (forall i, j :: 0 <= i < j < |order| ==> order[i] != order[j])
  }

  // After any selection of the calls, in any order, each key holds the overlay
  // if its call was among them and is untouched otherwise.
  lemma SelectedCallsCell<K>(cells: Cells<K>, ds: seq<Declared<K>>, order: seq<nat>, k: K, m: string)
    requires DistinctKeys(ds) && AllWireNames(ds) && Selection(order, |Grouped(ds)|)
    ensures Cell(CallAll(cells, Reordered(Grouped(ds), order)), k, m) ==
      if exists i :: 0 <= i < |order| && HasKey(Grouped(ds)[order[i]].entries, k)
      then Overlay(cells, ds, k, m) else Cell(cells, k, m)
  {
    var gs := Grouped(ds);
    var run := Reordered(gs, order);
    if i :| 0 <= i < |order| && HasKey(gs[order[i]].entries, k) {
      if k !in AsMap(ds) { KeyInNoGroup(ds, k, order[i]); }
      var at := MapPosition(ds, k);
      KeyInOneGroup(ds, at, order[i]);
      forall j | 0 <= j < |run| && j != i ensures !HasKey(run[j].entries, k) {
        KeyInOneGroup(ds, at, order[j]);
        GroupingIsStablePartition(ds);
      }
      CallAllTouched(cells, run, i, k, m);
      assert m in gs[order[i]].mask <==> m in MaskSet(gs[order[i]]);
      assert m in ds[at].fields <==> m in Elements(ds[at].fields);
    } else {
      CallAllUntouched(cells, run, k, m);
    }
  }

  lemma SameCells<K(!new)>(a: Cells<K>, b: Cells<K>)
    requires forall k, m :: Cell(a, k, m) == Cell(b, k, m)
    ensures a == b
  {
    forall km | km in a.Keys + b.Keys ensures km in a && km in b && a[km] == b[km] {
      assert Cell(a, km.0, km.1) == Cell(b, km.0, km.1);
    }
  }

  // After the first n calls each key is either fully written or untouched.
  lemma PrefixWritesOverlay<K(!new)>(cells: Cells<K>, ds: seq<Declared<K>>, n: nat)
    requires DistinctKeys(ds) && AllWireNames(ds) && n <= |Grouped(ds)|
    ensures forall k, m :: (Cell(CallAll(cells, Grouped(ds)[..n]), k, m) ==
      (if exists g :: 0 <= g < n && HasKey(Grouped(ds)[g].entries, k)
       then Overlay(cells, ds, k, m) else Cell(cells, k, m)))
  {
    var order := seq(n, i requires 0 <= i < n => i);
    assert Reordered(Grouped(ds), order) == Grouped(ds)[..n];
    forall k, m ensures Cell(CallAll(cells, Grouped(ds)[..n]), k, m) ==
      if exists g :: 0 <= g < n && HasKey(Grouped(ds)[g].entries, k)
      then Overlay(cells, ds, k, m) else Cell(cells, k, m)
    {
      SelectedCallsCell(cells, ds, order, k, m);
      if g :| 0 <= g < n && HasKey(Grouped(ds)[g].entries, k) { assert order[g] == g; }
    }
  }

  lemma AllCallsWriteOverlay<K(!new)>(cells: Cells<K>, ds: seq<Declared<K>>)
    requires DistinctKeys(ds) && AllWireNames(ds)
    ensures IsOverlay(cells, ds, CallAll(cells, Grouped(ds)))
  {
    var gs := Grouped(ds);
    PrefixWritesOverlay(cells, ds, |gs|);
    assert gs[..|gs|] == gs;
    forall k, m ensures Cell(CallAll(cells, gs), k, m) == Overlay(cells, ds, k, m) {
      if k in AsMap(ds) {
        var at := MapPosition(ds, k);
        var g := GroupOf(ds, at);
        KeyInOneGroup(ds, at, g);
      }
    }
  }

  // All the calls, in whatever order they go out, write the overlay, and so
  // leave the same store.
  lemma AnyOrderWritesOverlay<K(!new)>(cells: Cells<K>, ds: seq<Declared<K>>, order: seq<nat>)
    requires DistinctKeys(ds) && AllWireNames(ds) && Selection(order, |Grouped(ds)|)
    requires forall g :: 0 <= g < |Grouped(ds)| ==> g in order
    ensures IsOverlay(cells, ds, CallAll(cells, Reordered(Grouped(ds), order)))
    ensures CallAll(cells, Reordered(Grouped(ds), order)) == CallAll(cells, Grouped(ds))
  {
    var after := CallAll(cells, Reordered(Grouped(ds), order));
    forall k, m ensures Cell(after, k, m) == Overlay(cells, ds, k, m) {
      SelectedCallsCell(cells, ds, order, k, m);
      if k in AsMap(ds) {
        var at := MapPosition(ds, k);
        var g := GroupOf(ds, at);
        KeyInOneGroup(ds, at, g);
        assert g in order;
      }
    }
    AllCallsWriteOverlay(cells, ds);
    SameCells(after, CallAll(cells, Grouped(ds)));
  }

  // ---------------------------------------------------------------------
  // The whole write
  // ---------------------------------------------------------------------

  // The entries that reach the controller.
  function Sent<K(==)>(declared: seq<Declared<K>>, keyed: bool): seq<Declared<K>> {
    WithFields(Deduped(declared), keyed)
  }

  lemma SentKeepsOverlay<K>(cells: Cells<K>, declared: seq<Declared<K>>, keyed: bool, k: K, m: string)
    ensures Overlay(cells, Sent(declared, keyed), k, m) == Overlay(cells, declared, k, m)
  {
    DedupeAsMap(declared);
    WithFieldsAsMap(Deduped(declared), keyed, k);
  }

  lemma SentIsLegal<K>(declared: seq<Declared<K>>, keyed: bool)
    requires AllWireNames(declared)
    ensures DistinctKeys(Sent(declared, keyed)) && AllWireNames(Sent(declared, keyed))
    ensures forall d :: d in Sent(declared, keyed) ==> d in declared && Sendable(d, keyed)
  {
    DedupeKeepsLast(declared);
    WithFieldsDistinct(Deduped(declared), keyed);
    forall d | d in Sent(declared, keyed) ensures d in declared && Sendable(d, keyed) {
      WithFieldsIff(Deduped(declared), keyed, d);
    }
  }

  // Dropping the empty declarations is what keeps every mask non-empty.
  lemma SentMasksNotEmpty<K>(ds: seq<Declared<K>>, g: nat)
    requires AllWireNames(ds) && (forall d :: d in ds ==> d.fields != []) && g < |Grouped(ds)|
    ensures Grouped(ds)[g].mask != []
  {
    FirstInGroup(ds, g);
    var i := FirstDeclaring(ds, MaskSet(Grouped(ds)[g]));
    assert ds[i] in ds && ds[i].fields[0] in Elements(ds[i].fields);
    NoElements(Grouped(ds)[g].mask);
  }

  ghost predicate AllOrNothing<K>(before: Cells<K>, ds: seq<Declared<K>>, after: Cells<K>, k: K) {
    (forall m :: Cell(after, k, m) == Overlay(before, ds, k, m)) ||
    (forall m :: Cell(after, k, m) == Cell(before, k, m))
  }

  // Dedupe, drop the empty, group, call: the part of BeforeSend that writes.
  // It fails only when the controller refuses one of its calls; on success the
  // store is the overlay of the blocks, on failure each key is all or nothing.
  method WriteDeclared<K(==,!new)>(controller: Controller<K>, declared: seq<Declared<K>>, keyed: bool)
    returns (failed: bool)
    requires AllWireNames(declared)
    modifies controller
    ensures failed <==> RefusesAny(controller.refused, old(controller.calls), |Grouped(Sent(declared, keyed))|)
    ensures !failed ==> controller.calls == old(controller.calls) + |Grouped(Sent(declared, keyed))|
    ensures !failed ==> IsOverlay(old(controller.cells), declared, controller.cells)
    ensures forall k :: AllOrNothing(old(controller.cells), declared, controller.cells, k)
  {
    ghost var before := controller.cells;
    var deduped := DedupeDeclared(declared);
    var sent := DeclaredWithFields(deduped, keyed);
    SentIsLegal(declared, keyed);
    forall k, m ensures Overlay(before, sent, k, m) == Overlay(before, declared, k, m) {
      SentKeepsOverlay(before, declared, keyed, k, m);
    }
    GroupKeysEmpty(sent);
    failed := false;
    if |sent| > 0 {
      var r := UpdateGrouped(controller, sent);
      failed := r.Err?;
      if r.Ok? {
        AllCallsWriteOverlay(before, sent);
      } else {
        SentMasksNotEmpty(sent, r.error.at);
        PrefixWritesOverlay(before, sent, r.error.at);
      }
    }
  }
}
