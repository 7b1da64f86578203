// Terraform attribute values, the values go-unifi puts on the wire, and the
// conversions between them that the device descriptors share.

module Terraform {
  import opened FieldSets

  datatype Option<+T> = None | Some(value: T) {
    function Or(default: T): T {
      if Some? then value else default
    }
  }

  datatype Result<+T, +E> = Ok(value: T) | Err(error: E)

  // A framework attribute: null, not resolved yet, or holding a value.
  datatype Attr<+T> = Null | Unknown | Known(value: T) {
    // The framework's Value accessors answer the Go zero for null and unknown.
    function Or(zero: T): T {
      if Known? then value else zero
    }

    predicate IsSet() {
      Known?
    }
  }

  // One member of a port override or radio entry as go-unifi carries it. Zero
  // stands for a member no encoder assigned.
  datatype Wire =
    | Zero
    | Text(text: string)
    | Flag(flag: bool)
    | Number(number: Option<int>)
    | Texts(texts: seq<string>)
    | Numbers(numbers: seq<int>)

  // How the schema types a member, which fixes how it is encoded and read back.
  datatype Kind = AText | AFlag | ANumber | ADuration | ATextSet | ATextList | ANumberList

  predicate Shaped(kind: Kind, w: Wire) {
    match kind
    case AText => w.Text?
    case AFlag => w.Flag?
    case ANumber => w.Number?
    case ADuration => w.Number?
    case ATextSet => w.Texts?
    case ATextList => w.Texts?
    case ANumberList => w.Numbers?
  }

  // A known attribute value: shaped like its kind, and a known number is a number.
  predicate Fits(kind: Kind, a: Attr<Wire>) {
    a.Known? ==> Shaped(kind, a.value) && (a.value.Number? ==> a.value.number.Some?)
  }

  function ZeroOf(kind: Kind): (w: Wire)
    ensures Shaped(kind, w)
    ensures w in {Text(""), Flag(false), Number(None), Texts([]), Numbers([])}
  {
    match kind
    case AText => Text("")
    case AFlag => Flag(false)
    case ANumber => Number(None)
    case ADuration => Number(None)
    case ATextSet => Texts([])
    case ATextList => Texts([])
    case ANumberList => Numbers([])
  }

  // What the encoders put in the struct. ValueInt64Pointer answers a pointer to
  // 0, not nil, for an unknown number; every other accessor answers the zero.
  function ToWire(kind: Kind, a: Attr<Wire>): Wire {
    match a
    case Known(w) => w
    case Null => ZeroOf(kind)
    case Unknown => if kind == ANumber then Number(Some(0)) else ZeroOf(kind)
  }

  // The reconcile helpers for a member whose prior is not null.
  function FromWire(kind: Kind, w: Wire): Attr<Wire>
    requires Shaped(kind, w)
  {
    match kind
    case AText => if w.text == "" then Null else Known(w)
    case AFlag => Known(w)
    case ANumber => if w.number.None? then Null else Known(w)
    case ADuration => if w.number.None? then Null else Known(w)
    case ATextSet => Known(Texts(Sort(w.texts)))
    case ATextList => Known(w)
    case ANumberList => Known(w)
  }

  // A member the practitioner never declared stays null.
  function Reconcile(kind: Kind, prior: Attr<Wire>, w: Wire): Attr<Wire>
    requires Shaped(kind, w)
  {
    if prior.Null? then prior else FromWire(kind, w)
  }

  // Equality of attributes, with a set's element order ignored.
  predicate SameAttr(kind: Kind, a: Attr<Wire>, b: Attr<Wire>) {
    if kind == ATextSet && a.Known? && b.Known? && a.value.Texts? && b.value.Texts?
    then multiset(a.value.texts) == multiset(b.value.texts)
    else a == b
  }

  // The members a write followed by a read gives back: not waiting on another
  // resource, and not the empty string.
  predicate Restorable(a: Attr<Wire>) {
    !a.Unknown? && a != Known(Text(""))
  }

  // Writing a member and reading the same value back changes it exactly when
  // it is unknown or the empty string.
  lemma WriteThenReconcile(kind: Kind, a: Attr<Wire>)
    requires Fits(kind, a)
    ensures Shaped(kind, ToWire(kind, a))
    ensures SameAttr(kind, Reconcile(kind, a, ToWire(kind, a)), a) <==> Restorable(a)
  {
    if kind == ATextSet && a.Known? {
      SortIsPermutation(a.value.texts);
    }
  }

  // What a controller reports for a member it does not hold.
  predicate Blank(w: Wire) {
    w == Text("") || w == Number(None)
  }

  // What a value the controller reports must show as: null for a blank, a set's
  // elements in ascending order, and anything else as it is.
  ghost predicate ReadsAs(kind: Kind, w: Wire, a: Attr<Wire>) {
    !a.Unknown? && (a.Null? <==> Blank(w)) &&
    (a.Known? ==>
       if kind == ATextSet then
         w.Texts? && a.value.Texts? && Ascending(a.value.texts) && multiset(a.value.texts) == multiset(w.texts)
       else a.value == w)
  }

  // Reconciling any reported value with any prior one.
  lemma ReconcileExactly(kind: Kind, prior: Attr<Wire>, w: Wire)
    requires Shaped(kind, w)
    ensures prior.Null? ==> Reconcile(kind, prior, w) == Null
    ensures !prior.Null? ==> ReadsAs(kind, w, Reconcile(kind, prior, w))
  {
    if kind == ATextSet {
      SortIsPermutation(w.texts);
      SortAscends(w.texts);
    }
  }

  // An unset member is never reported unknown once the controller answered.
  lemma ReconcileResolves(kind: Kind, prior: Attr<Wire>, w: Wire)
    requires Shaped(kind, w)
    ensures !Reconcile(kind, prior, w).Unknown?
    ensures prior.Null? ==> Reconcile(kind, prior, w).Null?
    ensures Fits(kind, Reconcile(kind, prior, w)) || prior.Null?
  {
  }

  // ---------------------------------------------------------------------
  // A block's members together, kinds giving each member's type
  // ---------------------------------------------------------------------

  type Members = map<string, Attr<Wire>>

  ghost predicate TypedMembers(kinds: map<string, Kind>, ms: Members) {
    ms.Keys == kinds.Keys && forall m :: m in ms ==> Fits(kinds[m], ms[m])
  }

  // The struct go-unifi decodes always has every member in its own shape.
  ghost predicate DecodedMembers(kinds: map<string, Kind>, values: map<string, Wire>) {
    forall m :: m in kinds ==> m in values && Shaped(kinds[m], values[m])
  }

  function ToWires(kinds: map<string, Kind>, ms: Members): map<string, Wire>
    requires TypedMembers(kinds, ms)
  {
    map m | m in ms :: ToWire(kinds[m], ms[m])
  }

  // The names among those visited whose value is neither null nor unknown.
  function DeclaredAmong(ms: Members, names: seq<string>): seq<string>
    requires forall m :: m in names ==> m in ms
  {
    if names == [] then []
    else if ms[names[0]].IsSet() then [names[0]] + DeclaredAmong(ms, names[1..])
    else DeclaredAmong(ms, names[1..])
  }

  function ReconcileMembers(kinds: map<string, Kind>, prior: Members, values: map<string, Wire>): Members
    requires TypedMembers(kinds, prior) && DecodedMembers(kinds, values)
  {
    map m | m in prior :: Reconcile(kinds[m], prior[m], values[m])
  }

  ghost predicate SameMembers(kinds: map<string, Kind>, a: Members, b: Members) {
    a.Keys == b.Keys && forall m :: m in a && m in kinds ==> SameAttr(kinds[m], a[m], b[m])
  }

  ghost predicate AllRestorable(ms: Members) {
    forall m :: m in ms ==> Restorable(ms[m])
  }

  lemma {:induction false} DeclaredAmongIff(ms: Members, names: seq<string>, m: string)
    requires forall n :: n in names ==> n in ms
    ensures m in DeclaredAmong(ms, names) <==> m in names && ms[m].IsSet()
  {
    if names != [] {
      DeclaredAmongIff(ms, names[1..], m);
      assert m in names <==> m == names[0] || m in names[1..];
    }
  }

  lemma ToWiresDecoded(kinds: map<string, Kind>, ms: Members)
    requires TypedMembers(kinds, ms)
    ensures DecodedMembers(kinds, ToWires(kinds, ms))
  {
    forall m | m in ms ensures Shaped(kinds[m], ToWires(kinds, ms)[m]) {
      WriteThenReconcile(kinds[m], ms[m]);
    }
  }

  // When every set member reads back at its own value, and whatever the others
  // read, reconciling changes nothing exactly when every member is restorable.
  lemma ReconcileMembersIff(kinds: map<string, Kind>, ms: Members, values: map<string, Wire>)
    requires TypedMembers(kinds, ms) && DecodedMembers(kinds, values)
    requires forall m :: m in ms && ms[m].Known? ==> values[m] == ms[m].value
    ensures SameMembers(kinds, ReconcileMembers(kinds, ms, values), ms) <==> AllRestorable(ms)
  {
    var r := ReconcileMembers(kinds, ms, values);
    forall m | m in ms ensures SameAttr(kinds[m], r[m], ms[m]) <==> Restorable(ms[m]) {
      WriteThenReconcile(kinds[m], ms[m]);
      ReconcileResolves(kinds[m], ms[m], values[m]);
    }
    if SameMembers(kinds, r, ms) {
      forall m | m in ms ensures Restorable(ms[m]) {
        assert m in r;
      }
    }
  }
}
