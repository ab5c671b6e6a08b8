/** Whole runs of assignments, and what can be read after them (js/src/mutation.ts). */
module FracRun {
  import opened ByteStrings
  import opened Wrappers
  import opened FracTypes
  import opened FracView
  import opened FracSize
  import opened FracFields
  import opened FracMutate
  import opened FracSet
  import opened FracExpand

  // ---------------------------------------------------------------- any field

  /** The assignment can be carried out: what it reads is there, also after expanding. */
  predicate CanSet(d: seq<byte>, ts: seq<Type>, i: nat)
    requires i < |ts| && WellFormed(ts[i])
  {
    && Readable(d, ts, i)
    && (Elided(d, ts, i) ==> Readable(Expand(d, ts, i), ts, i) && !Elided(Expand(d, ts, i), ts, i))
  }

  /** The buffer the assignment works on: a left-out field is declared first. */
  function Prepared(d: seq<byte>, ts: seq<Type>, i: nat): seq<byte>
    requires i < |ts| && WellFormed(ts[i]) && CanSet(d, ts, i)
  {
    if Elided(d, ts, i) then Expand(d, ts, i) else d
  }

  function SetCanonical(d: seq<byte>, ts: seq<Type>, i: nat, v: Value): seq<byte>
    requires i < |ts| && WellFormed(ts[i]) && HasType(v, ts[i]) && CanSet(d, ts, i)
  {
    if Elided(d, ts, i) && v.Null? then d else PutCanonical(Prepared(d, ts, i), ts, i, v)
  }

  function SetFast(d: seq<byte>, ts: seq<Type>, i: nat, v: Value): seq<byte>
    requires i < |ts| && WellFormed(ts[i]) && HasType(v, ts[i]) && CanSet(d, ts, i)
  {
    if Elided(d, ts, i) && v.Null? then d else PutFast(Prepared(d, ts, i), ts, i, v)
  }

  /** How many fields are declared after field i is set. */
  function DeclaredAfter(k: nat, i: nat, v: Value): nat {
    if i < k || v.Null? then k else i + 1
  }

  lemma GoodCanSet(d: seq<byte>, ts: seq<Type>, vs: seq<Value>, k: nat, i: nat)
    requires Schema(ts) && Good(d, ts, vs, k) && i < |ts| && NotOver(ts[i], vs[i])
    requires i >= k ==> |d| + Offset(ts, i + 1) - Offset(ts, k) < U32_LIMIT
    ensures CanSet(d, ts, i) && (Elided(d, ts, i) <==> i >= k)
    ensures Good(Prepared(d, ts, i), ts, vs, if i < k then k else i + 1)
    ensures |Prepared(d, ts, i)| == if i < k then |d| else |d| + Offset(ts, i + 1) - Offset(ts, k)
  {
    SchemaField(ts, i);
    hide Schema, Good, Readable, Elided, Expand, SlotsInside, Read16, NotOver;
    GoodDeclares(d, ts, vs, k);
    GoodReadable(d, ts, vs, k, i);
    if i >= k {
      ExpandKeepsGood(d, ts, vs, k, i);
      ExpandSize(d, ts, i);
      GoodReadable(Expand(d, ts, i), ts, vs, i + 1, i);
      DeclaredIs(ts, i + 1, k);
    }
  }

  lemma NullStays(d: seq<byte>, ts: seq<Type>, vs: seq<Value>, k: nat, i: nat)
    requires Good(d, ts, vs, k) && k <= i < |ts|
    ensures ts[i].Optional? && vs[i] == Null && vs[i := Null] == vs
  {
  }

  /** One assignment, in either mode: the data holds the updated record. The value replaced must not
      be measured too large. */
  lemma SetKeepsGood(d: seq<byte>, ts: seq<Type>, vs: seq<Value>, k: nat, i: nat, v: Value)
    requires Schema(ts) && Good(d, ts, vs, k) && i < |ts| && HasType(v, ts[i]) && NotOver(ts[i], vs[i])
    requires i >= k ==> |d| + Offset(ts, i + 1) - Offset(ts, k) < U32_LIMIT
    ensures CanSet(d, ts, i)
    ensures |SetCanonical(d, ts, i, v)| < U32_LIMIT ==> Good(SetCanonical(d, ts, i, v), ts, vs[i := v], DeclaredAfter(k, i, v))
    ensures |SetFast(d, ts, i, v)| < U32_LIMIT ==> Good(SetFast(d, ts, i, v), ts, vs[i := v], DeclaredAfter(k, i, v))
  {
    SchemaField(ts, i);
    hide Schema, Good, Readable, Elided, PutCanonical, PutFast, Prepared, HasType, NotOver;
    GoodCanSet(d, ts, vs, k, i);
    if i >= k && v.Null? {
      NullStays(d, ts, vs, k, i);
    } else {
      var e, k' := Prepared(d, ts, i), if i < k then k else i + 1;
      GoodReadable(e, ts, vs, k', i);
      if |PutCanonical(e, ts, i, v)| < U32_LIMIT { CanonicalKeepsGood(e, ts, vs, k', i, v); }
      if |PutFast(e, ts, i, v)| < U32_LIMIT { FastKeepsGood(e, ts, vs, k', i, v); }
    }
  }

  // ---------------------------------------------------------------- runs

  datatype Update = Update(field: nat, value: Value, fast: bool)

  predicate Typed(ts: seq<Type>, us: seq<Update>) {
    forall u :: u in us ==> u.field < |ts| && WellFormed(ts[u.field]) && HasType(u.value, ts[u.field])
  }

  function Set(d: seq<byte>, ts: seq<Type>, u: Update): seq<byte>
    requires u.field < |ts| && WellFormed(ts[u.field]) && HasType(u.value, ts[u.field]) && CanSet(d, ts, u.field)
  {
    if u.fast then SetFast(d, ts, u.field, u.value) else SetCanonical(d, ts, u.field, u.value)
  }

  /** The record after a run of updates. */
  function Updated(vs: seq<Value>, us: seq<Update>): (r: seq<Value>)
    requires forall u :: u in us ==> u.field < |vs|
    ensures |r| == |vs|
    decreases |us|
  {
    if us == [] then vs else Updated(vs[us[0].field := us[0].value], us[1..])
  }

  /** No value that is replaced on the way is measured too large. */
  predicate Replaceable(ts: seq<Type>, vs: seq<Value>, us: seq<Update>)
    requires Typed(ts, us) && HaveTypes(vs, ts)
    decreases |us|
  {
    us == [] ||
    (NotOver(ts[us[0].field], vs[us[0].field]) && Replaceable(ts, vs[us[0].field := us[0].value], us[1..]))
  }

  /** The assignments, one after the other, take d to e, and every buffer on the way is short
      enough for 32-bit offsets. */
  predicate Runs(d: seq<byte>, ts: seq<Type>, us: seq<Update>, e: seq<byte>)
    requires Typed(ts, us)
    decreases |us|
  {
    if us == [] then d == e
    else
      && CanSet(d, ts, us[0].field)
      && |Prepared(d, ts, us[0].field)| < U32_LIMIT && |Set(d, ts, us[0])| < U32_LIMIT
      && Runs(Set(d, ts, us[0]), ts, us[1..], e)
  }

  lemma PreparedSize(d: seq<byte>, ts: seq<Type>, vs: seq<Value>, k: nat, i: nat)
    requires Schema(ts) && Good(d, ts, vs, k) && k <= i < |ts| && CanSet(d, ts, i)
    ensures |Prepared(d, ts, i)| == |d| + Offset(ts, i + 1) - Offset(ts, k)
  {
    SchemaField(ts, i);
    hide Schema, Good, Expand, SlotsInside, Read16, Measured, WellFormed;
    GoodDeclares(d, ts, vs, k);
    GoodDeclared(d, ts, vs, k, i);
    ExpandSize(d, ts, i);
    DeclaredIs(ts, i + 1, k);
  }

  /** After any run of assignments, in any mix of the two modes, the data holds the record with
      exactly those updates: all heap parts in bounds, apart, and as packed. */
  lemma {:induction false} RunKeepsGood(d: seq<byte>, ts: seq<Type>, vs: seq<Value>, k: nat, us: seq<Update>, e: seq<byte>)
    returns (k': nat)
    requires Schema(ts) && Good(d, ts, vs, k) && Typed(ts, us) && Replaceable(ts, vs, us) && Runs(d, ts, us, e)
    ensures Good(e, ts, Updated(vs, us), k')
    decreases |us|
  {
    hide Schema, Good, CanSet, SetFast, SetCanonical, Prepared, HasType, WellFormed, NotOver;
    k' := k;
    if us != [] {
      var u := us[0];
      assert u in us;
      GoodDeclares(d, ts, vs, k);
      if u.field >= k { PreparedSize(d, ts, vs, k, u.field); }
      SetKeepsGood(d, ts, vs, k, u.field, u.value);
      k' := RunKeepsGood(Set(d, ts, u), ts, vs[u.field := u.value], DeclaredAfter(k, u.field, u.value), us[1..], e);
    }
  }

  /** The bytes a run may add: what it writes, and the slots it declares. */
  function Budget(ts: seq<Type>, us: seq<Update>): nat
    requires Typed(ts, us)
  {
    if us == [] then FixedTotal(ts) else |NewBytes(ts[us[0].field], us[0].value)| + FixedTotal(ts) + Budget(ts, us[1..])
  }

  lemma SetSize(d: seq<byte>, ts: seq<Type>, vs: seq<Value>, k: nat, u: Update)
    requires Schema(ts) && Good(d, ts, vs, k) && u.field < |ts| && HasType(u.value, ts[u.field]) && NotOver(ts[u.field], vs[u.field])
    requires |d| + FixedTotal(ts) < U32_LIMIT
    ensures CanSet(d, ts, u.field) && |Prepared(d, ts, u.field)| <= |d| + FixedTotal(ts)
    ensures |Set(d, ts, u)| <= |d| + FixedTotal(ts) + |NewBytes(ts[u.field], u.value)|
  {
    SchemaField(ts, u.field);
    hide *;
    var k' := PreparedBounds(d, ts, vs, k, u.field);
    PutSize(Prepared(d, ts, u.field), ts, vs, k', u);
    SetIsPut(d, ts, u);
  }

  lemma PreparedBounds(d: seq<byte>, ts: seq<Type>, vs: seq<Value>, k: nat, i: nat) returns (k': nat)
    requires Schema(ts) && Good(d, ts, vs, k) && i < |ts| && NotOver(ts[i], vs[i])
    requires |d| + FixedTotal(ts) < U32_LIMIT
    ensures CanSet(d, ts, i) && |Prepared(d, ts, i)| <= |d| + FixedTotal(ts)
    ensures i < k' && Good(Prepared(d, ts, i), ts, vs, k')
  {
    SchemaField(ts, i);
    hide *;
    SlotsAdded(d, ts, vs, k, i);
    GoodCanSet(d, ts, vs, k, i);
    k' := if i < k then k else i + 1;
  }

  lemma SetIsPut(d: seq<byte>, ts: seq<Type>, u: Update)
    requires u.field < |ts| && WellFormed(ts[u.field]) && HasType(u.value, ts[u.field]) && CanSet(d, ts, u.field)
    ensures var e := Prepared(d, ts, u.field);
            Readable(e, ts, u.field) && !Elided(e, ts, u.field)
            && (Set(d, ts, u) == d || Set(d, ts, u) == if u.fast then PutFast(e, ts, u.field, u.value) else PutCanonical(e, ts, u.field, u.value))
  {
    hide Readable, Elided, PutFast, PutCanonical, Expand;
  }

  lemma SlotsAdded(d: seq<byte>, ts: seq<Type>, vs: seq<Value>, k: nat, i: nat)
    requires Good(d, ts, vs, k) && i < |ts|
    ensures i >= k ==> Offset(ts, i + 1) - Offset(ts, k) <= FixedTotal(ts)
  {
    hide FixedSize, FixedTotal, Good;
    GoodDeclares(d, ts, vs, k);
    OffsetTotal(ts);
    if i + 1 < |ts| { OffsetGrows(ts, i + 1, |ts|); }
  }

  lemma PutSize(e: seq<byte>, ts: seq<Type>, vs: seq<Value>, k: nat, u: Update)
    requires Schema(ts) && Good(e, ts, vs, k) && u.field < k && HasType(u.value, ts[u.field]) && NotOver(ts[u.field], vs[u.field])
    ensures WellFormed(ts[u.field]) && Readable(e, ts, u.field) && !Elided(e, ts, u.field)
    ensures |PutCanonical(e, ts, u.field, u.value)| <= |e| + |NewBytes(ts[u.field], u.value)|
    ensures |PutFast(e, ts, u.field, u.value)| <= |e| + |NewBytes(ts[u.field], u.value)|
  {
    SchemaField(ts, u.field);
    hide *;
    GoodReadable(e, ts, vs, k, u.field);
    CanonicalSize(e, ts, vs, k, u.field, u.value);
    FastSize(e, ts, vs, k, u.field, u.value);
  }

  lemma FastSize(d: seq<byte>, ts: seq<Type>, vs: seq<Value>, k: nat, i: nat, v: Value)
    requires Schema(ts) && Good(d, ts, vs, k) && i < k && HasType(v, ts[i]) && Readable(d, ts, i) && !Elided(d, ts, i)
    requires NotOver(ts[i], vs[i])
    ensures |PutFast(d, ts, i, v)| <= |d| + |NewBytes(ts[i], v)|
  {
    SchemaField(ts, i);
    hide Schema, Good, Readable, Read32, Read16, HeapForm, Write, PackedSizeAt, AppendField, NotOver, WellFormed, HasType, FixedSize, IsVar,
         IsEmptyContainer;
    GoodDeclares(d, ts, vs, k);
    if IsVar(ts[i]) && !v.Null? {
      AppendSize(d, ts, i, HeapForm(ts[i], v));
    } else {
      CanonicalSize(d, ts, vs, k, i, v);
    }
  }

  /** Within the size budget every run can be carried out. */
  lemma {:induction false} RunExists(d: seq<byte>, ts: seq<Type>, vs: seq<Value>, k: nat, us: seq<Update>) returns (e: seq<byte>)
    requires Schema(ts) && Good(d, ts, vs, k) && Typed(ts, us) && Replaceable(ts, vs, us) && |d| + Budget(ts, us) < U32_LIMIT
    ensures Runs(d, ts, us, e)
    decreases |us|
  {
    hide Schema, Good, CanSet, SetFast, SetCanonical, Prepared, HasType, NewBytes, FixedTotal, NotOver, WellFormed;
    e := d;
    if us != [] {
      var u := us[0];
      assert u in us;
      BudgetHolds(ts, us);
      SetSize(d, ts, vs, k, u);
      GoodDeclares(d, ts, vs, k);
      if u.field >= k { PreparedSize(d, ts, vs, k, u.field); }
      SetKeepsGood(d, ts, vs, k, u.field, u.value);
      e := RunExists(Set(d, ts, u), ts, vs[u.field := u.value], DeclaredAfter(k, u.field, u.value), us[1..]);
    }
  }

  lemma {:induction false} BudgetHolds(ts: seq<Type>, us: seq<Update>)
    requires Typed(ts, us)
    ensures Budget(ts, us) >= FixedTotal(ts)
  {
    if us != [] { BudgetHolds(ts, us[1..]); }
  }

  // ---------------------------------------------------------------- reading

  /** A field the view can show: null, or a value without an optional empty container in a struct
      inside. An optional may itself hold one on the heap, but not by the offset 0. */
  predicate Shown(d: seq<byte>, ts: seq<Type>, vs: seq<Value>, i: nat)
    requires HaveTypes(vs, ts) && i < |ts|
  {
    Viewable(ts[i], vs[i]) && (ts[i].Optional? && !vs[i].Null? ==> Read32(d, SlotPos(ts, i)) != 0)
  }

  /** Every field reads as its value in the record. */
  lemma GoodReads(d: seq<byte>, ts: seq<Type>, vs: seq<Value>, k: nat, i: nat)
    requires Schema(ts) && Good(d, ts, vs, k) && i < |ts| && Plain(ts[i])
    ensures WellFormed(ts[i]) && HasType(vs[i], ts[i])
    ensures Views(ViewField(ts[i], d, SlotPos(ts, i), 2 + Read16(d, 0)), vs[i], Shown(d, ts, vs, i))
  {
    GoodDeclares(d, ts, vs, k);
    SchemaField(ts, i);
    hide Schema, Apart, Read16, Read32, HeapForm, View, Viewable, Pack, WellFormed, HasType, FixedSize, Plain, IsVar;
    if i >= k {
      if k < i { OffsetGrows(ts, k, i); }
    } else {
      OffsetGrows(ts, i, k);
      FieldReads(d, ts, vs, SlotPos(ts, k), i);
    }
  }

  lemma FieldReads(d: seq<byte>, ts: seq<Type>, vs: seq<Value>, heap: nat, i: nat)
    requires HaveTypes(vs, ts) && i < |ts| && WellFormed(ts[i]) && Plain(ts[i]) && FieldOk(d, ts, vs, heap, i)
    requires SlotPos(ts, i) + FixedSize(ts[i]) <= heap <= |d| < U32_LIMIT
    ensures Views(ViewField(ts[i], d, SlotPos(ts, i), heap), vs[i], Shown(d, ts, vs, i))
  {
    hide Read32, View, Viewable, Pack, FixedSize, IsVar, WellFormed, Plain, HasType, HeapForm, IsEmptyContainer;
    var t, v := ts[i], vs[i];
    FieldFacts(t, v);
    ViewableOptional(t, v);
    if !IsVar(t) {
      InlineReads(d, t, SlotPos(ts, i), v);
    } else if v.Null? {
      assert Read32(d, SlotPos(ts, i)) == 1;
    } else if Read32(d, SlotPos(ts, i)) == 0 {
      ViewableEmpty(Payload(t), v);
    } else {
      LiveIsVar(d, ts, vs, heap, i);
      HeapFormIs(t, v);
      ViewReads(Payload(t), d, Target(d, ts, i), v);
    }
  }

  lemma InlineReads(d: seq<byte>, t: Type, slot: nat, v: Value)
    requires WellFormed(t) && Plain(t) && HasType(v, t) && !IsVar(t) && At(d, slot, Slot(t, v, 0)) && |d| < U32_LIMIT
    ensures Views(View(t, d, slot), v, Viewable(t, v))
  {
    hide View, Viewable, Pack, At, WellFormed, Plain, HasType, IsVar;
    AtInside(d, slot, Slot(t, v, 0));
    ViewReads(t, d, slot, v);
  }

  lemma HeapFormIs(t: Type, v: Value)
    requires HasType(v, t) && !v.Null?
    ensures HasType(v, Payload(t)) && HeapForm(t, v) == Pack(Payload(t), v)
  {
    hide Pack;
    PayloadTyped(t, v);
  }

  lemma NullIsOptional(t: Type, v: Value)
    requires HasType(v, t) && v.Null?
    ensures t.Optional?
  {
  }

  lemma LiveIsVar(d: seq<byte>, ts: seq<Type>, vs: seq<Value>, heap: nat, i: nat)
    requires HaveTypes(vs, ts) && i < |ts| && FieldOk(d, ts, vs, heap, i) && IsVar(ts[i]) && !vs[i].Null?
    requires SlotPos(ts, i) + 4 <= heap && Read32(d, SlotPos(ts, i)) != 0
    ensures Live(d, ts, i)
  {
    hide Read32, HeapForm;
  }

  predicate AllShown(d: seq<byte>, ts: seq<Type>, vs: seq<Value>, i: nat)
    requires HaveTypes(vs, ts) && i <= |ts|
  {
    forall j :: i <= j < |ts| ==> Shown(d, ts, vs, j)
  }

  lemma {:induction false} GoodReadsFrom(d: seq<byte>, ts: seq<Type>, vs: seq<Value>, k: nat, i: nat)
    requires Schema(ts) && AllPlain(ts) && Good(d, ts, vs, k) && i <= |ts|
    ensures forall t :: t in ts[i..] ==> WellFormed(t)
    ensures Views(ViewFields(ts[i..], d, SlotPos(ts, i), 2 + Read16(d, 0)), vs[i..], AllShown(d, ts, vs, i))
    decreases |ts| - i
  {
    SchemaFrom(ts, i);
    GoodDeclares(d, ts, vs, k);
    hide *;
    TypedLength(ts, vs);
    var end := 2 + Read16(d, 0);
    ShownFrom(d, ts, vs, i);
    if i < |ts| {
      PlainAt(ts, i);
      GoodReads(d, ts, vs, k, i);
      GoodReadsFrom(d, ts, vs, k, i + 1);
      NextSlot(ts, i);
      TailFrom(ts, vs, i);
      ViewFieldsUnfold(ts[i..], d, SlotPos(ts, i), end);
      ViewsPrepend(ViewField(ts[i], d, SlotPos(ts, i), end), vs[i], Shown(d, ts, vs, i),
                   ViewFields(ts[i + 1..], d, SlotPos(ts, i + 1), end), vs[i + 1..], AllShown(d, ts, vs, i + 1));
    } else {
      NoFieldsViewed(ts[i..], d, SlotPos(ts, i), end, vs[i..]);
    }
  }

  lemma TailFrom(ts: seq<Type>, vs: seq<Value>, i: nat)
    requires i < |ts| == |vs|
    ensures ts[i..] != [] && ts[i..][0] == ts[i] && ts[i..][1..] == ts[i + 1..] && vs[i..] == [vs[i]] + vs[i + 1..]
  {
  }

  lemma SchemaFrom(ts: seq<Type>, i: nat)
    requires Schema(ts) && i <= |ts|
    ensures forall t :: t in ts[i..] ==> WellFormed(t)
  {
    hide WellFormed;
  }

  lemma TypedLength(ts: seq<Type>, vs: seq<Value>)
    requires HaveTypes(vs, ts)
    ensures |ts| == |vs|
  {
    hide HasType;
  }

  lemma PlainAt(ts: seq<Type>, i: nat)
    requires AllPlain(ts) && i < |ts|
    ensures Plain(ts[i])
  {
    assert ts[i] in ts;
  }

  lemma ViewsPrepend(x: Result<Value>, v: Value, ok: bool, rest: Result<seq<Value>>, vs: seq<Value>, oks: bool)
    requires Views(x, v, ok) && Views(rest, vs, oks)
    ensures Views(Prepend(x, rest), [v] + vs, ok && oks)
  {
  }

  lemma NextSlot(ts: seq<Type>, i: nat)
    requires i < |ts|
    ensures SlotPos(ts, i + 1) == SlotPos(ts, i) + FixedSize(ts[i])
  {
    OffsetNext(ts, i);
  }

  lemma ViewFieldsUnfold(ts: seq<Type>, d: seq<byte>, slot: nat, end: nat)
    requires (forall t :: t in ts ==> WellFormed(t)) && ts != []
    ensures ViewFields(ts, d, slot, end)
            == Prepend(ViewField(ts[0], d, slot, end), ViewFields(ts[1..], d, slot + FixedSize(ts[0]), end))
  {
    hide ViewField, WellFormed, FixedSize;
  }

  lemma NoFieldsViewed(ts: seq<Type>, d: seq<byte>, slot: nat, end: nat, none: seq<Value>)
    requires ts == [] && none == []
    ensures Views(ViewFields(ts, d, slot, end), none, true)
  {
  }

  lemma ShownFrom(d: seq<byte>, ts: seq<Type>, vs: seq<Value>, i: nat)
    requires HaveTypes(vs, ts) && i <= |ts|
    ensures AllShown(d, ts, vs, i) <==> (i < |ts| ==> Shown(d, ts, vs, i) && AllShown(d, ts, vs, i + 1))
  {
    hide Shown, HasType;
  }

  lemma SchemaAll(ts: seq<Type>)
    requires Schema(ts)
    ensures forall t :: t in ts ==> WellFormed(t)
    ensures WellFormed(Struct(ts))
  {
  }

  /** The view of the whole buffer is the record, when all its fields can be shown; bytes that no
      slot leads to do not matter. */
  lemma GoodViews(d: seq<byte>, ts: seq<Type>, vs: seq<Value>, k: nat)
    requires Schema(ts) && AllPlain(ts) && Good(d, ts, vs, k)
    ensures WellFormed(Struct(ts)) && HaveTypes(vs, ts)
    ensures Views(View(Struct(ts), d, 0), Items(vs), AllShown(d, ts, vs, 0))
  {
    SchemaAll(ts);
    hide Schema, Good, Read16, Shown, WellFormed, HasType, ViewFields, AllShown;
    GoodDeclares(d, ts, vs, k);
    GoodReadsFrom(d, ts, vs, k, 0);
    assert ts[0..] == ts && vs[0..] == vs;
  }
}
