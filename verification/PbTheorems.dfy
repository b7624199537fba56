/** The laws of the codec: round trip, reading with an older or newer descriptor, and merging concatenated input. */
module PbTheorems {
  import opened Wrappers
  import opened PbTypes
  import opened PbWire
  import opened PbSpec
  import opened PbEvolve

  /** No union says that two of its members are current; so in every submessage that is written. */
  ghost predicate Tidy(d: seq<Field>, x: seq<Slot>)
    requires WfDesc(d) && Typed(d, x)
    decreases d, 0
  {
    && (forall i, j :: 0 <= i < j < |d| && SameUnion(d, i, j) ==> x[i] == Member(None) || x[j] == Member(None))
    && (forall i :: 0 <= i < |d| ==> TidyField(d[i], x[i]))
  }

  ghost predicate TidyField(f: Field, s: Slot)
    requires WfField(f) && TypedSlot(f, s)
    decreases f, 1
  {
    var vs := Carried(f, s);
    forall k :: 0 <= k < |vs| ==> TidyValue(f, vs[k])
  }

  ghost predicate TidyValue(f: Field, v: Value)
    requires WfField(f) && TypedValue(f, v)
    decreases f, 0
  {
    f.ltype.Submessage? ==> Tidy(f.sub, v.slots)
  }

  /** Fields that share a union for the reader share one for the writer, at every depth. */
  ghost predicate UnionsKept(d': seq<Field>, d: seq<Field>)
    decreases d'
  {
    && (forall i', j', i, j | 0 <= i' < |d'| && 0 <= j' < |d'| && 0 <= i < |d| && 0 <= j < |d| ::
          d'[i'].tag == d[i].tag && d'[j'].tag == d[j].tag && SameUnion(d', i', j') ==> SameUnion(d, i, j))
    && (forall i', i | 0 <= i' < |d'| && 0 <= i < |d| ::
          d'[i'].tag == d[i].tag && d'[i'].ltype.Submessage? ==> UnionsKept(d'[i'].sub, d[i].sub))
  }

  /** Whether the reader has room for v: a string needs a byte for its NUL, which the encoder does not ask for. */
  ghost predicate FitsValue(f': Field, f: Field, v: Value)
    requires WfField(f') && WfField(f) && SameField(f', f) && TypedValue(f, v)
    decreases f, 0
  {
    && (f.ltype.String? ==> |v.b| < f.dataSize)
    && (f.ltype.Submessage? ==> Fits(f'.sub, f.sub, v.slots))
  }

  ghost predicate FitsField(f': Field, f: Field, s: Slot)
    requires WfField(f') && WfField(f) && SameField(f', f) && TypedSlot(f, s)
    decreases f, 1
  {
    var vs := Carried(f, s);
    forall k :: 0 <= k < |vs| ==> FitsValue(f', f, vs[k])
  }

  /** Whether the reader has room for everything it knows of x, from field i on. */
  ghost predicate FitsFrom(d': seq<Field>, d: seq<Field>, x: seq<Slot>, i: nat)
    requires WfDesc(d') && WfDesc(d) && Compatible(d', d) && Typed(d, x) && i <= |d|
    decreases d, 0, |d| - i
  {
    i < |d| ==>
      var r := Find(d', d[i].tag);
      (r.Some? ==> FitsField(d'[r.value], d[i], x[i])) && FitsFrom(d', d, x, i + 1)
  }

  ghost predicate Fits(d': seq<Field>, d: seq<Field>, x: seq<Slot>)
    requires WfDesc(d') && WfDesc(d) && Compatible(d', d) && Typed(d, x)
    decreases d, 1
  {
    FitsFrom(d', d, x, 0)
  }

  // ----- which structs can be encoded -----

  /** The encoder knows the size of each integer, each byte array fits its field together with its header, and each
      array has room for its entries, in everything that is written, at every depth. */
  ghost predicate Encodable(d: seq<Field>, x: seq<Slot>)
    requires WfDesc(d) && Typed(d, x)
    decreases d, 0
  {
    forall i :: 0 <= i < |d| ==> EncodableField(d[i], x[i])
  }

  ghost predicate EncodableField(f: Field, s: Slot)
    requires WfField(f) && TypedSlot(f, s)
    decreases f, 1
  {
    var vs := Carried(f, s);
    && (f.htype.Repeated? ==> |vs| <= f.arraySize)
    && forall k :: 0 <= k < |vs| ==> EncodableValue(f, vs[k])
  }

  ghost predicate EncodableValue(f: Field, v: Value)
    requires WfField(f) && TypedValue(f, v)
    decreases f, 0
  {
    && (f.ltype.Varint? || f.ltype.UVarint? || f.ltype.SVarint? ==> IntSize(f.dataSize))
    && (f.ltype.Bytes? ==> |v.b| + BYTES_HEADER <= f.dataSize)
    && (f.ltype.Submessage? ==> Encodable(f.sub, v.slots))
  }

  lemma {:induction false} ValueEncodes(f: Field, v: Value)
    requires WfField(f) && TypedValue(f, v)
    ensures EncValue(f, v).Some? <==> EncodableValue(f, v)
    decreases f, 0
  {
    if f.ltype.Submessage? {
      EncodesIffEncodable(f.sub, v.slots);
    }
  }

  lemma {:induction false} ItemsEncode(f: Field, items: seq<Value>)
    requires WfField(f) && forall k :: 0 <= k < |items| ==> TypedValue(f, items[k])
    ensures EncPacked(f, items).Some? <==> forall k :: 0 <= k < |items| ==> EncodableValue(f, items[k])
    ensures EncUnpacked(f, items).Some? <==> forall k :: 0 <= k < |items| ==> EncodableValue(f, items[k])
    decreases f, 1, |items|
  {
    if items != [] {
      var more := items[1..];
      ValueEncodes(f, items[0]);
      ItemsEncode(f, more);
      assert forall k :: 0 <= k < |more| ==> more[k] == items[k+1];
      assert forall k :: 0 < k < |items| ==> items[k] == more[k-1];
    }
  }

  lemma {:induction false} FieldEncodes(f: Field, s: Slot)
    requires WfField(f) && TypedSlot(f, s)
    ensures EncField(f, s).Some? <==> EncodableField(f, s)
    decreases f, 2
  {
    if Present(f, s) {
      if f.htype.Repeated? {
        ItemsEncode(f, s.items);
      } else {
        assert Carried(f, s) == [Payload(f, s)];
        assert Carried(f, s)[0] == Payload(f, s);
        ValueEncodes(f, Payload(f, s));
      }
    }
  }

  lemma {:induction false} EncodesFrom(d: seq<Field>, x: seq<Slot>, i: nat)
    requires WfDesc(d) && Typed(d, x) && i <= |d|
    ensures EncFrom(d, x, i).Some? <==> forall j :: i <= j < |d| ==> EncodableField(d[j], x[j])
    decreases d, 0, |d| - i
  {
    if i < |d| {
      assert TypedSlot(d[i], x[i]);
      FieldEncodes(d[i], x[i]);
      EncodesFrom(d, x, i + 1);
    }
  }

  /** pb_encode has an encoding for exactly these structs. */
  lemma {:induction false} EncodesIffEncodable(d: seq<Field>, x: seq<Slot>)
    requires WfDesc(d) && Typed(d, x)
    ensures Encode(d, x).Some? <==> Encodable(d, x)
    decreases d, 1
  {
    EncodesFrom(d, x, 0);
  }

  // ----- the reader's view of a message -----

  ghost function ViewValue(f': Field, f: Field, v: Value): (w: Value)
    requires WfField(f') && WfField(f) && SameField(f', f) && TypedValue(f, v)
    decreases f', 0
  {
    if f.ltype.Submessage? then Msg(View(f'.sub, f.sub, v.slots)) else v
  }

  ghost function ViewItems(f': Field, f: Field, items: seq<Value>): (ws: seq<Value>)
    requires WfField(f') && WfField(f) && SameField(f', f)
    requires forall q :: 0 <= q < |items| ==> TypedValue(f, items[q])
    ensures |ws| == |items| && forall q :: 0 <= q < |items| ==> ws[q] == ViewValue(f', f, items[q])
    decreases f', 1, |items|
  {
    if items == [] then [] else [ViewValue(f', f, items[0])] + ViewItems(f', f, items[1..])
  }

  ghost function ViewSlot(f': Field, f: Field, s: Slot): Slot
    requires WfField(f') && WfField(f) && SameField(f', f) && TypedSlot(f, s)
    decreases f', 2
  {
    if !Present(f, s) then DefaultSlot(f')
    else match f.htype
      case Required => One(ViewValue(f', f, s.v))
      case Singular => One(ViewValue(f', f, s.v))
      case Optional => Opt(true, ViewValue(f', f, s.v))
      case Repeated => Many(ViewItems(f', f, s.items))
      case Oneof => Member(Some(ViewValue(f', f, s.held.value)))
  }

  /** Message x as a reader with descriptor d' sees it: the fields it knows with the values x gives them,
      recursively, and defaults for what x does not say. */
  ghost function View(d': seq<Field>, d: seq<Field>, x: seq<Slot>): (y: seq<Slot>)
    requires WfDesc(d') && WfDesc(d) && Compatible(d', d) && Typed(d, x)
    ensures |y| == |d'|
    decreases d', 3
  {
    seq(|d'|, i' requires 0 <= i' < |d'| =>
      var r := Find(d, d'[i'].tag);
      if r.Some? then ViewSlot(d'[i'], d[r.value], x[r.value]) else DefaultSlot(d'[i']))
  }

  /** The view of the first i fields of x. */
  ghost function Partial(d': seq<Field>, d: seq<Field>, x: seq<Slot>, i: nat): (y: seq<Slot>)
    requires WfDesc(d') && WfDesc(d) && Compatible(d', d) && Typed(d, x) && i <= |d|
  {
    seq(|d'|, i' requires 0 <= i' < |d'| =>
      var r := Find(d, d'[i'].tag);
      if r.Some? && r.value < i then View(d', d, x)[i'] else DefaultSlot(d'[i']))
  }

  /** Decoding one value into a destination that holds the default gives the view of the value. */
  lemma {:induction false} ValueView(f': Field, f: Field, v: Value)
    requires WfField(f') && WfField(f) && SameField(f', f) && TypedValue(f, v)
    requires TidyValue(f, v) && (f.ltype.Submessage? ==> UnionsKept(f'.sub, f.sub))
    requires EncValue(f, v).Some?
    ensures TypedValue(f', DefaultValue(f'))
    ensures MergeValue(f', f, DefaultValue(f'), v)
         == if FitsValue(f', f, v) then Some(ViewValue(f', f, v)) else None
    decreases f, 0, 0
  {
    DefaultValueTyped(f');
    if f.ltype.Submessage? {
      MessageView(f'.sub, f.sub, v.slots);
    }
  }

  ghost predicate FitsItems(f': Field, f: Field, items: seq<Value>)
    requires WfField(f') && WfField(f) && SameField(f', f)
    requires forall q :: 0 <= q < |items| ==> TypedValue(f, items[q])
  {
    items == [] || (FitsValue(f', f, items[0]) && FitsItems(f', f, items[1..]))
  }

  lemma {:induction false} FitsItemsAll(f': Field, f: Field, items: seq<Value>)
    requires WfField(f') && WfField(f) && SameField(f', f)
    requires forall q :: 0 <= q < |items| ==> TypedValue(f, items[q])
    ensures FitsItems(f', f, items) <==> forall q :: 0 <= q < |items| ==> FitsValue(f', f, items[q])
  {
    if items != [] {
      var more := items[1..];
      FitsItemsAll(f', f, more);
      assert forall q :: 0 <= q < |more| ==> more[q] == items[q+1];
      assert forall q :: 0 < q < |items| ==> items[q] == more[q-1];
    }
  }

  lemma {:induction false} FirstItemView(f': Field, f: Field, items: seq<Value>, have: seq<Value>)
    requires WfField(f') && WfField(f) && SameField(f', f)
    requires forall q :: 0 <= q < |items| ==> TypedValue(f, items[q])
    requires forall q :: 0 <= q < |have| ==> TypedValue(f', have[q])
    requires items != [] && TidyValue(f, items[0]) && EncValue(f, items[0]).Some?
    requires f.ltype.Submessage? ==> UnionsKept(f'.sub, f.sub)
    requires |have| < f.arraySize
    ensures FitsValue(f', f, items[0]) ==> TypedValue(f', ViewValue(f', f, items[0]))
    ensures Append(f', f, have, items)
         == if FitsValue(f', f, items[0])
            then Append(f', f, have + [ViewValue(f', f, items[0])], items[1..]) else None
    decreases f, 1, 0
  {
    ViewValueTyped(f', f, items[0]);
    ValueView(f', f, items[0]);
  }

  lemma MovesOver<T>(a: seq<T>, x: T, b: seq<T>)
    ensures a + [x] + b == a + ([x] + b)
  {
  }

  lemma {:induction false} ItemsView(f': Field, f: Field, items: seq<Value>, have: seq<Value>)
    requires WfField(f') && WfField(f) && SameField(f', f)
    requires forall q :: 0 <= q < |items| ==> TypedValue(f, items[q])
    requires forall q :: 0 <= q < |have| ==> TypedValue(f', have[q])
    requires forall q :: 0 <= q < |items| ==> TidyValue(f, items[q]) && EncValue(f, items[q]).Some?
    requires f.ltype.Submessage? ==> UnionsKept(f'.sub, f.sub)
    requires |have| + |items| <= f.arraySize
    ensures Append(f', f, have, items)
         == if FitsItems(f', f, items)
            then Some(have + ViewItems(f', f, items)) else None
    decreases f, 1, |items|
  {
    if items == [] {
      assert have + [] == have;
    } else {
      FirstItemView(f', f, items, have);
      var more := items[1..];
      if FitsValue(f', f, items[0]) {
        var w := ViewValue(f', f, items[0]);
        ItemsView(f', f, more, have + [w]);
        MovesOver(have, w, ViewItems(f', f, more));
      }
    }
  }

  lemma {:induction false} PackedItems(f: Field, items: seq<Value>, k: nat)
    requires WfField(f) && forall q :: 0 <= q < |items| ==> TypedValue(f, items[q])
    requires EncPacked(f, items).Some? || EncUnpacked(f, items).Some?
    requires k < |items|
    ensures EncValue(f, items[k]).Some?
  {
    if k > 0 {
      assert items[1..][k-1] == items[k];
      PackedItems(f, items[1..], k - 1);
    }
  }

  lemma CarriedEncodes(f: Field, s: Slot)
    requires WfField(f) && TypedSlot(f, s) && EncField(f, s).Some?
    ensures forall k :: 0 <= k < |Carried(f, s)| ==> EncValue(f, Carried(f, s)[k]).Some?
    ensures f.htype.Repeated? ==> |s.items| <= f.arraySize || s.items == []
  {
    var vs := Carried(f, s);
    forall k | 0 <= k < |vs|
      ensures EncValue(f, vs[k]).Some?
    {
      if f.htype.Repeated? {
        assert EncArray(f, s.items).Some?;
        PackedItems(f, s.items, k);
      }
    }
    if f.htype.Repeated? && s.items != [] {
      assert EncArray(f, s.items).Some?;
    }
  }

  /** A field that arrives in an entry still at its default. */
  lemma {:induction false} RepeatedView(d': seq<Field>, i': nat, f: Field, m: seq<Slot>, s: Slot)
    requires WfDesc(d') && WfField(f) && i' < |d'| && SameField(d'[i'], f) && Typed(d', m) && TypedSlot(f, s)
    requires m[i'] == DefaultSlot(d'[i'])
    requires TidyField(f, s) && (f.ltype.Submessage? ==> UnionsKept(d'[i'].sub, f.sub))
    requires EncField(f, s).Some? && Present(f, s)
    requires f.htype.Oneof? ==> forall j | 0 <= j < |d'| :: j != i' && SameUnion(d', i', j) ==> m[j] == Member(None)
    requires f.htype.Repeated?
    ensures MergeField(d', i', f, m, s)
         == if FitsField(d'[i'], f, s) then Some(m[i' := ViewSlot(d'[i'], f, s)]) else None
    decreases f, 2, 0
  {
    var f' := d'[i'];
    CarriedEncodes(f, s);
    assert TypedSlot(f', m[i']);
    assert Carried(f, s) == s.items;
    FitsItemsAll(f', f, s.items);
    ItemsView(f', f, s.items, []);
    assert [] + ViewItems(f', f, s.items) == ViewItems(f', f, s.items);
  }

  lemma {:induction false} SingleView(d': seq<Field>, i': nat, f: Field, m: seq<Slot>, s: Slot)
    requires WfDesc(d') && WfField(f) && i' < |d'| && SameField(d'[i'], f) && Typed(d', m) && TypedSlot(f, s)
    requires m[i'] == DefaultSlot(d'[i'])
    requires TidyField(f, s) && (f.ltype.Submessage? ==> UnionsKept(d'[i'].sub, f.sub))
    requires EncField(f, s).Some? && Present(f, s)
    requires f.htype.Oneof? ==> forall j | 0 <= j < |d'| :: j != i' && SameUnion(d', i', j) ==> m[j] == Member(None)
    requires !f.htype.Repeated?
    ensures MergeField(d', i', f, m, s)
         == if FitsField(d'[i'], f, s) then Some(m[i' := ViewSlot(d'[i'], f, s)]) else None
    decreases f, 2, 0
  {
    var f', v := d'[i'], Payload(f, s);
    CarriedEncodes(f, s);
    assert TypedSlot(f', m[i']);
    assert Carried(f, s) == [v] && Carried(f, s)[0] == v;
    ValueView(f', f, v);
    if FitsValue(f', f, v) && f.htype.Oneof? {
      var w := ViewValue(f', f, v);
      assert SetMember(d', m, i', w) == m[i' := Member(Some(w))];
    }
  }

  lemma {:induction false} FieldView(d': seq<Field>, i': nat, f: Field, m: seq<Slot>, s: Slot)
    requires WfDesc(d') && WfField(f) && i' < |d'| && SameField(d'[i'], f) && Typed(d', m) && TypedSlot(f, s)
    requires m[i'] == DefaultSlot(d'[i'])
    requires TidyField(f, s) && (f.ltype.Submessage? ==> UnionsKept(d'[i'].sub, f.sub))
    requires EncField(f, s).Some? && Present(f, s)
    requires f.htype.Oneof? ==> forall j | 0 <= j < |d'| :: j != i' && SameUnion(d', i', j) ==> m[j] == Member(None)
    ensures MergeField(d', i', f, m, s)
         == if FitsField(d'[i'], f, s) then Some(m[i' := ViewSlot(d'[i'], f, s)]) else None
    decreases f, 3, 0
  {
    if f.htype.Repeated? {
      RepeatedView(d', i', f, m, s);
    } else {
      SingleView(d', i', f, m, s);
    }
  }

  lemma {:induction false} EncFromField(d: seq<Field>, x: seq<Slot>, i: nat, j: nat)
    requires WfDesc(d) && Typed(d, x) && i <= j < |d| && EncFrom(d, x, i).Some?
    ensures EncField(d[j], x[j]).Some?
    decreases j - i
  {
    if i < j {
      EncFromField(d, x, i + 1, j);
    }
  }

  lemma PartialTyped(d': seq<Field>, d: seq<Field>, x: seq<Slot>, i: nat)
    requires WfDesc(d') && WfDesc(d) && Compatible(d', d) && Typed(d, x) && i <= |d|
    requires Typed(d', View(d', d, x))
    ensures Typed(d', Partial(d', d, x, i))
  {
    DefaultTyped(d');
    var p := Partial(d', d, x, i);
    forall i' | 0 <= i' < |d'|
      ensures TypedSlot(d'[i'], p[i'])
    {
      assert TypedSlot(d'[i'], View(d', d, x)[i']);
      assert TypedSlot(d'[i'], Defaults(d')[i']);
    }
  }

  lemma {:induction false} ViewValueTyped(f': Field, f: Field, v: Value)
    requires WfField(f') && WfField(f) && SameField(f', f) && TypedValue(f, v)
    ensures TypedValue(f', ViewValue(f', f, v))
    decreases f', 0
  {
    if f.ltype.Submessage? {
      ViewTyped(f'.sub, f.sub, v.slots);
    }
  }

  /** The reader's view is a struct of the reader's type. */
  lemma {:induction false} ViewTyped(d': seq<Field>, d: seq<Field>, x: seq<Slot>)
    requires WfDesc(d') && WfDesc(d) && Compatible(d', d) && Typed(d, x)
    ensures Typed(d', View(d', d, x))
    decreases d', 2
  {
    var y := View(d', d, x);
    DefaultTyped(d');
    forall i' | 0 <= i' < |d'|
      ensures TypedSlot(d'[i'], y[i'])
    {
      var f' := d'[i'];
      assert TypedSlot(f', Defaults(d')[i']);
      var r := Find(d, f'.tag);
      if r.Some? {
        assert TypedSlot(d[r.value], x[r.value]);
        ViewSlotTyped(f', d[r.value], x[r.value]);
      }
    }
  }

  lemma {:induction false} ViewSlotTyped(f': Field, f: Field, s: Slot)
    requires WfField(f') && WfField(f) && SameField(f', f) && TypedSlot(f, s)
    requires TypedSlot(f', DefaultSlot(f'))
    ensures TypedSlot(f', ViewSlot(f', f, s))
    decreases f', 1
  {
    if Present(f, s) {
      if f.htype.Repeated? {
        forall k | 0 <= k < |s.items|
          ensures TypedValue(f', ViewValue(f', f, s.items[k]))
        {
          ViewValueTyped(f', f, s.items[k]);
        }
      } else {
        ViewValueTyped(f', f, Payload(f, s));
      }
    }
  }

  /** Merging x into a struct of defaults gives the reader's view of x, unless a string does not fit. */
  lemma {:induction false} MessageView(d': seq<Field>, d: seq<Field>, x: seq<Slot>)
    requires WfDesc(d') && WfDesc(d) && Compatible(d', d) && Typed(d, x)
    requires Tidy(d, x) && UnionsKept(d', d) && Encode(d, x).Some?
    ensures Typed(d', Defaults(d'))
    ensures MergeFrom(d', d, Defaults(d'), x, 0) == if Fits(d', d, x) then Some(View(d', d, x)) else None
    decreases d, 1, 0
  {
    DefaultTyped(d');
    ViewTyped(d', d, x);
    assert Partial(d', d, x, 0) == Defaults(d');
    PartialView(d', d, x, 0);
  }

  /** A field that the reader does not know changes nothing. */
  lemma PartialSkips(d': seq<Field>, d: seq<Field>, x: seq<Slot>, i: nat)
    requires WfDesc(d') && WfDesc(d) && Compatible(d', d) && Typed(d, x) && i < |d|
    requires Find(d', d[i].tag).None?
    ensures Partial(d', d, x, i + 1) == Partial(d', d, x, i)
  {
  }

  lemma {:induction false} PartialView(d': seq<Field>, d: seq<Field>, x: seq<Slot>, i: nat)
    requires WfDesc(d') && WfDesc(d) && Compatible(d', d) && Typed(d, x) && i <= |d|
    requires Tidy(d, x) && UnionsKept(d', d) && Encode(d, x).Some? && Typed(d', View(d', d, x))
    ensures Typed(d', Partial(d', d, x, i))
    ensures MergeFrom(d', d, Partial(d', d, x, i), x, i)
         == if FitsFrom(d', d, x, i) then Some(View(d', d, x)) else None
    decreases d, 0, |d| - i
  {
    var m := Partial(d', d, x, i);
    PartialTyped(d', d, x, i);
    if i == |d| {
      assert m == View(d', d, x);
    } else {
      PartialView(d', d, x, i + 1);
      var r := Find(d', d[i].tag);
      if r.None? {
        PartialSkips(d', d, x, i);
      } else {
        PartialStep(d', d, x, i, r.value);
      }
    }
  }

  lemma {:induction false} PartialStep(d': seq<Field>, d: seq<Field>, x: seq<Slot>, i: nat, i': nat)
    requires WfDesc(d') && WfDesc(d) && Compatible(d', d) && Typed(d, x) && i < |d| && i' < |d'|
    requires Find(d', d[i].tag) == Some(i')
    requires Tidy(d, x) && UnionsKept(d', d) && Encode(d, x).Some?
    requires Typed(d', Partial(d', d, x, i))
    ensures MergeField(d', i', d[i], Partial(d', d, x, i), x[i])
         == if FitsField(d'[i'], d[i], x[i]) then Some(Partial(d', d, x, i + 1)) else None
    decreases d, 0, 0
  {
    var m, f, s := Partial(d', d, x, i), d[i], x[i];
    PartialNext(d', d, x, i, i');
    assert TypedSlot(f, s);
    if !Present(f, s) {
      assert m[i' := DefaultSlot(d'[i'])] == m;
    } else {
      EncFromField(d, x, 0, i);
      if f.htype.Oneof? {
        SiblingsAbsent(d', d, x, i, i');
      }
      FieldView(d', i', f, m, s);
    }
  }

  lemma PartialNext(d': seq<Field>, d: seq<Field>, x: seq<Slot>, i: nat, i': nat)
    requires WfDesc(d') && WfDesc(d) && Compatible(d', d) && Typed(d, x) && i < |d| && i' < |d'|
    requires Find(d', d[i].tag) == Some(i')
    ensures SameField(d'[i'], d[i])
    ensures Partial(d', d, x, i)[i'] == DefaultSlot(d'[i'])
    ensures Partial(d', d, x, i + 1) == Partial(d', d, x, i)[i' := ViewSlot(d'[i'], d[i], x[i])]
  {
    FindUnique(d, i);
    forall k | 0 <= k < |d'| && k != i'
      ensures Partial(d', d, x, i + 1)[k] == Partial(d', d, x, i)[k]
    {
      assert d'[k].tag != d'[i'].tag;
    }
  }

  /** While a union member arrives, the reader's other members of that union are still absent. */
  lemma SiblingsAbsent(d': seq<Field>, d: seq<Field>, x: seq<Slot>, i: nat, i': nat)
    requires WfDesc(d') && WfDesc(d) && Compatible(d', d) && Typed(d, x) && i < |d| && i' < |d'|
    requires d'[i'].tag == d[i].tag && Tidy(d, x) && UnionsKept(d', d)
    requires d[i].htype.Oneof? && x[i] != Member(None)
    ensures forall j | 0 <= j < |d'| :: j != i' && SameUnion(d', i', j) ==> Partial(d', d, x, i)[j] == Member(None)
  {
    forall j | 0 <= j < |d'| && j != i' && SameUnion(d', i', j)
      ensures Partial(d', d, x, i)[j] == Member(None)
    {
      var r := Find(d, d'[j].tag);
      if r.Some? && r.value < i {
        assert SameField(d'[j], d[r.value]);
        UnionKept(d', d, i', j, i, r.value);
        TidyPair(d, x, i, r.value);
        AbsentView(d'[j], d[r.value]);
      }
    }
  }

  lemma TidyPair(d: seq<Field>, x: seq<Slot>, i: nat, j: nat)
    requires WfDesc(d) && Typed(d, x) && Tidy(d, x) && i < |d| && j < |d| && i != j
    requires SameUnion(d, i, j) && x[i] != Member(None)
    ensures x[j] == Member(None)
  {
    if i < j {
      assert SameUnion(d, i, j);
    } else {
      assert SameUnion(d, j, i);
    }
  }

  lemma AbsentView(f': Field, f: Field)
    requires WfField(f') && WfField(f) && SameField(f', f) && f.htype.Oneof?
    ensures TypedSlot(f, Member(None)) && ViewSlot(f', f, Member(None)) == Member(None)
  {
  }

  lemma UnionKept(d': seq<Field>, d: seq<Field>, i': nat, j': nat, i: nat, j: nat)
    requires UnionsKept(d', d) && i' < |d'| && j' < |d'| && i < |d| && j < |d|
    requires d'[i'].tag == d[i].tag && d'[j'].tag == d[j].tag && SameUnion(d', i', j')
    ensures SameUnion(d, i, j) && SameUnion(d, j, i)
  {
  }

  // ----- main results -----

  /** Reading with another version of the descriptor: whatever pb_encode wrote, pb_decode with any compatible
      descriptor succeeds if and only if the strings it knows fit, and gives exactly its view of the message.
      Fields it does not know are skipped, at every depth. */
  lemma ReaderSeesView(d': seq<Field>, d: seq<Field>, x: seq<Slot>)
    requires WfDesc(d') && WfDesc(d) && Compatible(d', d) && UnionsKept(d', d)
    requires Typed(d, x) && Tidy(d, x)
    requires Encode(d, x).Some? && |Encode(d, x).value| < U32
    ensures Decode(d', Encode(d, x).value) == if Fits(d', d, x) then Some(View(d', d, x)) else None
  {
    var b := Encode(d, x).value;
    assert b + [] == b;
    DefaultTyped(d');
    FieldsDecode(d', d, x, 0, [], Defaults(d'), {});
    MessageView(d', d, x);
    RequiredWritten(d', d, x);
    assert {} + Written(d', d, x, 0) == Written(d', d, x, 0);
  }

  /** d' is d with fields left out, at any depth. */
  ghost predicate Reduced(d': seq<Field>, d: seq<Field>)
    decreases d'
  {
    forall i' :: 0 <= i' < |d'| ==>
      var r := Find(d, d'[i'].tag);
      && r.Some?
      && var f', f := d'[i'], d[r.value];
         && f'.ltype == f.ltype && f'.htype == f.htype && f'.dataSize == f.dataSize && f'.arraySize == f.arraySize
         && (f.ltype.Submessage? ==> Reduced(f'.sub, f.sub))
  }

  lemma {:induction false} ReducedCompatible(d': seq<Field>, d: seq<Field>)
    requires WfDesc(d') && WfDesc(d) && Reduced(d', d)
    ensures Compatible(d', d)
    decreases d'
  {
    forall i', i | 0 <= i' < |d'| && 0 <= i < |d| && d'[i'].tag == d[i].tag
      ensures SameField(d'[i'], d[i])
    {
      FindUnique(d, i);
      if d[i].ltype.Submessage? {
        ReducedCompatible(d'[i'].sub, d[i].sub);
      }
    }
  }

  /** Forward compatibility: a reader whose descriptor lacks fields, at any depth, accepts what was written and sees
      exactly what it knows of it. */
  lemma RemovedFieldsAreSkipped(d': seq<Field>, d: seq<Field>, x: seq<Slot>)
    requires WfDesc(d') && WfDesc(d) && Reduced(d', d) && UnionsKept(d', d) && Typed(d, x) && Tidy(d, x)
    requires Encode(d, x).Some? && |Encode(d, x).value| < U32
    ensures Compatible(d', d)
    ensures Decode(d', Encode(d, x).value) == if Fits(d', d, x) then Some(View(d', d, x)) else None
  {
    ReducedCompatible(d', d);
    ReaderSeesView(d', d, x);
  }

  lemma {:induction false} CompatibleSelf(d: seq<Field>)
    requires WfDesc(d)
    ensures Compatible(d, d) && UnionsKept(d, d)
    decreases d
  {
    forall i', i | 0 <= i' < |d| && 0 <= i < |d| && d[i'].tag == d[i].tag
      ensures SameField(d[i'], d[i])
      ensures i' == i
      ensures d[i].ltype.Submessage? ==> UnionsKept(d[i].sub, d[i].sub)
    {
      if d[i].ltype.Submessage? {
        CompatibleSelf(d[i].sub);
      }
    }
  }

  /** What decoding cannot bring back because it was not written is at its default already, at every depth. */
  ghost predicate Settled(d: seq<Field>, x: seq<Slot>)
    requires WfDesc(d) && Typed(d, x)
    decreases d, 0
  {
    forall i :: 0 <= i < |d| ==> SettledField(d[i], x[i])
  }

  ghost predicate SettledField(f: Field, s: Slot)
    requires WfField(f) && TypedSlot(f, s)
    decreases f, 1
  {
    var vs := Carried(f, s);
    && (!Present(f, s) ==> s == DefaultSlot(f))
    && (f.ltype.Submessage? ==> forall k :: 0 <= k < |vs| ==> Settled(f.sub, vs[k].slots))
  }

  lemma {:induction false} ViewSelfValue(f: Field, v: Value)
    requires WfField(f) && TypedValue(f, v) && SameField(f, f)
    ensures ViewValue(f, f, v) == v <==> (f.ltype.Submessage? ==> Settled(f.sub, v.slots))
    decreases f, 0
  {
    if f.ltype.Submessage? {
      ViewSelf(f.sub, v.slots);
    }
  }

  lemma {:induction false} ViewSelfField(f: Field, s: Slot)
    requires WfField(f) && TypedSlot(f, s) && SameField(f, f)
    ensures ViewSlot(f, f, s) == s <==> SettledField(f, s)
    decreases f, 1
  {
    var vs := Carried(f, s);
    forall k | 0 <= k < |vs|
      ensures ViewValue(f, f, vs[k]) == vs[k] <==> (f.ltype.Submessage? ==> Settled(f.sub, vs[k].slots))
    {
      ViewSelfValue(f, vs[k]);
    }
    if Present(f, s) {
      if f.htype.Repeated? {
        assert ViewItems(f, f, vs) == vs <==> forall k :: 0 <= k < |vs| ==> ViewValue(f, f, vs[k]) == vs[k];
      } else {
        assert vs[0] == Payload(f, s);
      }
    }
  }

  /** A reader with the writer's own descriptor sees the message itself, exactly when it is settled. */
  lemma {:induction false} ViewSelf(d: seq<Field>, x: seq<Slot>)
    requires WfDesc(d) && Typed(d, x)
    ensures Compatible(d, d)
    ensures View(d, d, x) == x <==> Settled(d, x)
    decreases d, 2
  {
    CompatibleSelf(d);
    var y := View(d, d, x);
    forall i | 0 <= i < |d|
      ensures y[i] == x[i] <==> SettledField(d[i], x[i])
    {
      FindUnique(d, i);
      assert SameField(d[i], d[i]);
      assert TypedSlot(d[i], x[i]);
      ViewSelfField(d[i], x[i]);
    }
  }

  /** Round trip: for every descriptor and struct, decoding what was encoded succeeds if and only if each string
      leaves room for its NUL, and then gives the struct back if and only if what it leaves unsaid is at its default. */
  lemma RoundTrip(d: seq<Field>, x: seq<Slot>)
    requires WfDesc(d) && Typed(d, x) && Tidy(d, x)
    requires Encode(d, x).Some? && |Encode(d, x).value| < U32
    ensures Compatible(d, d)
    ensures var r := Decode(d, Encode(d, x).value);
            && (r.Some? <==> Fits(d, d, x))
            && (r == Some(x) <==> Fits(d, d, x) && Settled(d, x))
  {
    CompatibleSelf(d);
    ReaderSeesView(d, d, x);
    ViewSelf(d, x);
  }

  /** Descriptors of one string of four characters: required, and optional. */
  function FullString(): Field { Field(1, String, Required, 0, 0, 4, 0, [], None) }

  function MaybeString(): Field { Field(1, String, Optional, 0, 0, 4, 0, [], None) }

  lemma OneStringField(f: Field, s: Slot)
    requires f.tag == 1 && f.ltype.String? && f.dataSize == 4 && f.arraySize == 0 && f.sub == [] && f.dflt == None
    requires f == FullString() || f == MaybeString()
    requires TypedSlot(f, s)
    ensures WfDesc([f]) && Typed([f], [s]) && Tidy([f], [s]) && Compatible([f], [f])
    ensures Encode([f], [s]) == EncField(f, s)
    ensures Fits([f], [f], [s]) <==> FitsField(f, f, s)
    ensures Settled([f], [s]) <==> SettledField(f, s)
  {
    assert WfField(f) && TidyField(f, s);
    CompatibleSelf([f]);
    assert Find([f], 1) == Some(0);
    assert EncFrom([f], [s], 1) == Some([]);
    if EncField(f, s).Some? { assert EncField(f, s).value + [] == EncField(f, s).value; }
    assert FitsFrom([f], [f], [s], 1);
  }

  /** A string that fills its buffer is encoded and not decoded again. */
  lemma FullStringLost()
    ensures var d, x := [FullString()], [One(Raw([97, 98, 99, 100]))];
            && WfDesc(d) && Typed(d, x) && Tidy(d, x)
            && Encode(d, x).Some? && Decode(d, Encode(d, x).value) == None
  {
    var f, s := FullString(), One(Raw([97, 98, 99, 100]));
    OneStringField(f, s);
    ShortEncoding(f, s, [97, 98, 99, 100]);
    assert !FitsValue(f, f, Carried(f, s)[0]);
    RoundTrip([f], [s]);
  }

  lemma ShortEncoding(f: Field, s: Slot, b: seq<byte>)
    requires (f == FullString() && s == One(Raw(b))) || (f == MaybeString() && s == Opt(false, Raw(b)))
    requires NulFree(b) && |b| <= 4
    ensures TypedSlot(f, s) && EncField(f, s).Some? && |EncField(f, s).value| < U32
  {
    VarintFits(|b|);
    VarintFits(f.tag * 8 + 2);
  }

  /** What a struct holds behind a clear flag does not come back. */
  lemma HiddenStringLost()
    ensures var d, x := [MaybeString()], [Opt(false, Raw([97]))];
            && WfDesc(d) && Typed(d, x) && Tidy(d, x)
            && Encode(d, x).Some? && Decode(d, Encode(d, x).value).Some? && Decode(d, Encode(d, x).value) != Some(x)
  {
    var f, s := MaybeString(), Opt(false, Raw([97]));
    OneStringField(f, s);
    ShortEncoding(f, s, [97]);
    RoundTrip([f], [s]);
  }

  /** A reader that knows no fields at all accepts every message. */
  lemma EmptyReader(d: seq<Field>, x: seq<Slot>)
    requires WfDesc(d) && Typed(d, x)
    requires Encode(d, x).Some? && |Encode(d, x).value| < U32
    ensures Decode([], Encode(d, x).value) == Some([])
  {
    var b := Encode(d, x).value;
    assert b + [] == b;
    FieldsDecode([], d, x, 0, [], [], {});
    MergeNothing(d, x, 0);
  }

  lemma {:induction false} MergeNothing(d: seq<Field>, x: seq<Slot>, i: nat)
    requires WfDesc(d) && Typed(d, x) && i <= |d|
    ensures MergeFrom([], d, [], x, i) == Some([])
    decreases |d| - i
  {
    if i < |d| {
      MergeNothing(d, x, i + 1);
    }
  }

  /** Concatenated encodings decode to the merge of the messages in their order. */
  lemma ConcatMerges(d: seq<Field>, m: seq<Slot>, x: seq<Slot>, y: seq<Slot>)
    requires WfDesc(d) && Compatible(d, d) && Typed(d, m) && Typed(d, x) && Typed(d, y)
    requires Encode(d, x).Some? && |Encode(d, x).value| < U32
    requires Encode(d, y).Some? && |Encode(d, y).value| < U32
    ensures DecMsg(d, Encode(d, x).value + Encode(d, y).value, m, {})
         == var r := MergeFrom(d, d, m, x, 0);
            if r.Some? then MergeFrom(d, d, r.value, y, 0) else None
  {
    var a, b := Encode(d, x).value, Encode(d, y).value;
    FieldsDecode(d, d, x, 0, b, m, {});
    var r := MergeFrom(d, d, m, x, 0);
    if r.Some? {
      var seen := {} + Written(d, d, x, 0);
      assert b + [] == b;
      FieldsDecode(d, d, y, 0, [], r.value, seen);
      RequiredWritten(d, d, y);
      assert AllRequired(d, seen + Written(d, d, y, 0));
    }
  }
}
