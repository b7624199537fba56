/** Merging, field by field: what each kind of field keeps when a second encoding of a message follows the first
    (Protocol Buffers encoding document, section "Last One Wins"). */
module PbMerge {
  import opened Wrappers
  import opened PbTypes
  import opened PbSpec
  import opened PbEvolve
  import opened PbTheorems

  /** A slot holding `was` after a present slot s of the same field has arrived; None if it does not fit. */
  ghost function MergeSlot(f: Field, was: Slot, s: Slot): Option<Slot>
    requires WfField(f) && SameField(f, f) && TypedSlot(f, was) && TypedSlot(f, s) && Present(f, s)
  {
    if f.htype.Repeated? then
      var r := Append(f, f, was.items, s.items);
      if r.Some? then Some(Many(r.value)) else None
    else
      DefaultValueTyped(f);
      var r := MergeValue(f, f, if f.htype.Oneof? then DefaultValue(f) else was.v, Payload(f, s));
      if r.None? then None
      else if f.htype.Oneof? then Some(Member(Some(r.value)))
      else if f.htype.Optional? then Some(Opt(true, r.value))
      else Some(One(r.value))
  }

  /** Whether, among fields i and later of x, some member of j's union other than j itself is current. */
  ghost predicate Displaced(d: seq<Field>, x: seq<Slot>, i: nat, j: nat)
    requires WfDesc(d) && Typed(d, x) && j < |d|
  {
    exists k :: i <= k < |d| && k != j && SameUnion(d, k, j) && Present(d[k], x[k])
  }

  ghost predicate AllFit(d: seq<Field>, m: seq<Slot>, x: seq<Slot>, i: nat)
    requires WfDesc(d) && Compatible(d, d) && Typed(d, m) && Typed(d, x)
  {
    forall j :: i <= j < |d| && Present(d[j], x[j]) ==>
      (SelfField(d, j); MergeSlot(d[j], m[j], x[j]).Some?)
  }

  lemma SelfField(d: seq<Field>, j: nat)
    requires WfDesc(d) && Compatible(d, d) && j < |d|
    ensures SameField(d[j], d[j])
  {
  }

  /** Slot j of struct m after fields i and later of x have arrived. */
  ghost function Merged(d: seq<Field>, m: seq<Slot>, x: seq<Slot>, i: nat, j: nat): Slot
    requires WfDesc(d) && Compatible(d, d) && Typed(d, m) && Typed(d, x) && j < |d|
    requires AllFit(d, m, x, i)
  {
    SelfField(d, j);
    if i <= j && Present(d[j], x[j]) then MergeSlot(d[j], m[j], x[j]).value
    else if d[j].htype.Oneof? && Displaced(d, x, i, j) then Member(None)
    else m[j]
  }

  /** Merging a message into a struct works slot by slot: it succeeds if and only if every present field fits where
      it goes; a present field is merged with what the slot had, a union gives up its old member when another one
      arrives, and everything else stays. */
  lemma {:induction false} MergesSlotwise(d: seq<Field>, m: seq<Slot>, x: seq<Slot>, i: nat)
    requires WfDesc(d) && Compatible(d, d) && Typed(d, m) && Typed(d, x) && Tidy(d, x) && i <= |d|
    ensures MergeFrom(d, d, m, x, i).Some? <==> AllFit(d, m, x, i)
    ensures MergeFrom(d, d, m, x, i).Some? ==>
              forall j :: 0 <= j < |d| ==> MergeFrom(d, d, m, x, i).value[j] == Merged(d, m, x, i, j)
    decreases |d| - i, 1
  {
    if i < |d| {
      FindUnique(d, i);
      SelfField(d, i);
      if Present(d[i], x[i]) {
        PresentStep(d, m, x, i);
      } else {
        MergesSlotwise(d, m, x, i + 1);
        SkipStep(d, m, x, i);
      }
    }
  }

  lemma SkipStep(d: seq<Field>, m: seq<Slot>, x: seq<Slot>, i: nat)
    requires WfDesc(d) && Compatible(d, d) && Typed(d, m) && Typed(d, x) && i < |d|
    requires !Present(d[i], x[i])
    ensures AllFit(d, m, x, i) <==> AllFit(d, m, x, i + 1)
    ensures AllFit(d, m, x, i) ==> forall j :: 0 <= j < |d| ==> Merged(d, m, x, i, j) == Merged(d, m, x, i + 1, j)
  {
  }

  /** The effect of one present field on the whole struct. */
  lemma OneField(d: seq<Field>, m: seq<Slot>, x: seq<Slot>, i: nat)
    requires WfDesc(d) && Compatible(d, d) && Typed(d, m) && Typed(d, x) && i < |d|
    requires SameField(d[i], d[i]) && Present(d[i], x[i])
    ensures var w, r := MergeSlot(d[i], m[i], x[i]), MergeField(d, i, d[i], m, x[i]);
            && (r.Some? <==> w.Some?)
            && (r.Some? ==>
                  forall j :: 0 <= j < |d| ==>
                    r.value[j] == if j == i then w.value else if SameUnion(d, i, j) then Member(None) else m[j])
  {
    assert TypedSlot(d[i], m[i]);
    assert TypedSlot(d[i], x[i]);
  }

  lemma PresentStep(d: seq<Field>, m: seq<Slot>, x: seq<Slot>, i: nat)
    requires WfDesc(d) && Compatible(d, d) && Typed(d, m) && Typed(d, x) && Tidy(d, x) && i < |d|
    requires Find(d, d[i].tag) == Some(i) && SameField(d[i], d[i]) && Present(d[i], x[i])
    ensures MergeFrom(d, d, m, x, i).Some? <==> AllFit(d, m, x, i)
    ensures MergeFrom(d, d, m, x, i).Some? ==>
              forall j :: 0 <= j < |d| ==> MergeFrom(d, d, m, x, i).value[j] == Merged(d, m, x, i, j)
    decreases |d| - i, 0
  {
    OneField(d, m, x, i);
    var r := MergeField(d, i, d[i], m, x[i]);
    if r.Some? {
      var m1 := r.value;
      MergesSlotwise(d, m1, x, i + 1);
      LaterUntouched(d, m, x, i, m1);
      assert MergeFrom(d, d, m, x, i) == MergeFrom(d, d, m1, x, i + 1);
    }
  }

  lemma LaterUntouched(d: seq<Field>, m: seq<Slot>, x: seq<Slot>, i: nat, m1: seq<Slot>)
    requires WfDesc(d) && Compatible(d, d) && Typed(d, m) && Typed(d, x) && Tidy(d, x) && i < |d|
    requires SameField(d[i], d[i]) && Present(d[i], x[i]) && Typed(d, m1)
    requires MergeSlot(d[i], m[i], x[i]).Some?
    requires forall j :: 0 <= j < |d| ==>
               m1[j] == if j == i then MergeSlot(d[i], m[i], x[i]).value
                        else if SameUnion(d, i, j) then Member(None) else m[j]
    ensures AllFit(d, m1, x, i + 1) <==> AllFit(d, m, x, i)
    ensures AllFit(d, m, x, i) ==> forall j :: 0 <= j < |d| ==> Merged(d, m1, x, i + 1, j) == Merged(d, m, x, i, j)
  {
    forall j | 0 <= j < |d| && j != i && Present(d[j], x[j])
      ensures !SameUnion(d, i, j)
    {
      if SameUnion(d, i, j) {
        TidyPair(d, x, i, j);
        assert false;
      }
    }
    if AllFit(d, m, x, i) {
      forall j | 0 <= j < |d|
        ensures Merged(d, m1, x, i + 1, j) == Merged(d, m, x, i, j)
      {
        if j == i {
          assert !Displaced(d, x, i + 1, i);
        } else if d[j].htype.Oneof? {
          assert Displaced(d, x, i, j) <==> SameUnion(d, i, j) || Displaced(d, x, i + 1, j);
        }
      }
    }
  }

  // ----- what merging means for each kind of field -----

  lemma {:induction false} AppendTooMany(f: Field, have: seq<Value>, items: seq<Value>)
    requires WfField(f) && SameField(f, f)
    requires forall k :: 0 <= k < |have| ==> TypedValue(f, have[k])
    requires forall k :: 0 <= k < |items| ==> TypedValue(f, items[k])
    requires items != [] && |have| + |items| > f.arraySize
    ensures Append(f, f, have, items) == None
    decreases |items|
  {
    if |have| < f.arraySize {
      DefaultValueTyped(f);
      var w := MergeValue(f, f, DefaultValue(f), items[0]);
      if w.Some? && items[1..] != [] {
        AppendTooMany(f, have + [w.value], items[1..]);
      }
    }
  }

  /** Repeated fields append, if there is room for all of them and each fits. */
  lemma RepeatedAppends(f: Field, was: Slot, s: Slot)
    requires WfField(f) && SameField(f, f) && TypedSlot(f, was) && TypedSlot(f, s)
    requires f.htype.Repeated? && s.items != [] && TidyField(f, s) && EncField(f, s).Some?
    requires f.ltype.Submessage? ==> UnionsKept(f.sub, f.sub)
    ensures MergeSlot(f, was, s)
         == if |was.items| + |s.items| <= f.arraySize && FitsItems(f, f, s.items)
            then Some(Many(was.items + ViewItems(f, f, s.items))) else None
  {
    CarriedEncodes(f, s);
    assert Carried(f, s) == s.items;
    if |was.items| + |s.items| <= f.arraySize {
      ItemsView(f, f, s.items, was.items);
    } else {
      AppendTooMany(f, was.items, s.items);
    }
  }

  /** A later number, byte array or string replaces the earlier one; only a string without room for its NUL fails. */
  lemma LaterScalarWins(f: Field, was: Slot, s: Slot)
    requires WfField(f) && SameField(f, f) && TypedSlot(f, was) && TypedSlot(f, s) && Present(f, s)
    requires !f.ltype.Submessage? && !f.htype.Repeated?
    ensures MergeSlot(f, was, s) == if f.ltype.String? && |Payload(f, s).b| == f.dataSize then None else Some(s)
  {
  }

  /** A later member of a union is taken whole, whatever the union held. */
  lemma MemberReplaces(f: Field, was: Slot, s: Slot)
    requires WfField(f) && SameField(f, f) && TypedSlot(f, was) && TypedSlot(f, s) && Present(f, s)
    requires f.htype.Oneof? && TidyField(f, s) && EncField(f, s).Some?
    requires f.ltype.Submessage? ==> UnionsKept(f.sub, f.sub)
    ensures MergeSlot(f, was, s)
         == if FitsValue(f, f, s.held.value) then Some(Member(Some(ViewValue(f, f, s.held.value)))) else None
  {
    CarriedEncodes(f, s);
    assert Carried(f, s)[0] == s.held.value;
    ValueView(f, f, s.held.value);
  }

  /** An ordinary submessage b is merged into the submessage a that is there, present or not. */
  lemma {:induction false} SubmessagesMerge(f: Field, a: Value, b: Value, had: bool)
    requires WfField(f) && SameField(f, f) && TypedValue(f, a) && TypedValue(f, b) && f.ltype.Submessage?
    ensures Agrees(f.sub, f.sub)
    ensures var r := MergeFrom(f.sub, f.sub, a.slots, b.slots, 0);
            && (f.htype.Required? ==>
                  MergeSlot(f, One(a), One(b)) == if r.Some? then Some(One(Msg(r.value))) else None)
            && (f.htype.Optional? ==>
                  MergeSlot(f, Opt(had, a), Opt(true, b)) == if r.Some? then Some(Opt(true, Msg(r.value))) else None)
  {
    CompatibleAgrees(f.sub, f.sub);
  }
}
