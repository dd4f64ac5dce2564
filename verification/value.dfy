/** The `value` wrapper: a holder of at most one tag, whose kind is fixed
    once held.  Conversions and assignments are checked against the
    widening relation, compound access is checked against the held kind,
    and every rejected operation reports the exception the wrapper throws. */
module ValueWrapper {
  import opened Wrappers
  import opened TagTypes
  import opened Tags
  import opened FixedWidth

  /** A value either holds one tag or is empty. */
  type Value = Option<Tag>

  /** std::bad_cast and std::out_of_range. */
  datatype CastError = BadCast | OutOfRange

  /** The kind of the held tag; an empty value reports End. */
  function GetType(v: Value): (k: TagType)
    ensures k == End <==> v.None?
    ensures v.Some? ==> k == TypeOf(v.value)
  {
    match v
    case None => End
    case Some(t) => TypeOf(t)
  }

  /** The default constructor: a value holding nothing. */
  function Empty(): (v: Value)
    ensures GetType(v) == End
  {
    None
  }

  /** Construction from a tag, and assignment of a tag: whatever was held
      before is discarded and the value now holds `t`. */
  function Hold(t: Tag): (v: Value)
    ensures v.Some? && v.value == t
    ensures GetType(v) == TypeOf(t)
  {
    Some(t)
  }

  /** Construction from, and assignment of, an owning tag pointer: the
      value takes over the pointee, and a null pointer leaves it empty. */
  function FromPointer(ptr: Option<Tag>): (v: Value)
    ensures ptr.None? ==> v == Empty()
    ensures ptr.Some? ==> v == Hold(ptr.value)
    ensures GetType(v) == End <==> ptr.None?
  {
    ptr
  }

  /** Conversion to the held tag; dereferencing an empty value is the
      caller's error. */
  function AsTag(v: Value): (t: Tag)
    requires v.Some?
    ensures TypeOf(t) == GetType(v)
    ensures Hold(t) == v
  {
    v.value
  }

  /** A primitive carried over to a kind its own kind widens to.  Integers
      keep their value; integers converted to a floating kind, and floats
      converted to double, are represented symbolically. */
  function Widen(p: Prim, to: PrimType): (q: Prim)
    requires Widens(PrimTypeOf(p), to)
    ensures PrimTypeOf(q) == to
    ensures PrimTypeOf(p) == to ==> q == p
    ensures IsIntegral(to) ==> IsIntegral(PrimTypeOf(p)) && IntegerOf(q) == IntegerOf(p)
  {
    match to
    case Byte => p
    case Short => PrimShort(IntegerOf(p) as int16)
    case Int => PrimInt(IntegerOf(p) as int32)
    case Long => PrimLong(IntegerOf(p) as int64)
    case Float =>
      if p.PrimFloat? then p else PrimFloat(Float32Near(IntegerOf(p)))
    case Double =>
      (match p
       case PrimDouble(_) => p
       case PrimFloat(f) => PrimDouble(Float64Of(f))
       case _ => PrimDouble(Float64Near(IntegerOf(p))))
    case String => p
  }

  /** The exact widenings are lossless: distinct primitives of one kind
      stay distinct.  The rounding ones (int32_t and int64_t to float,
      int64_t to double) are excluded, since C++ maps distinct integers
      such as 2^24 and 2^24 + 1 to the same float. */
  lemma WidenIsInjective(p: Prim, q: Prim, to: PrimType)
    requires PrimTypeOf(p) == PrimTypeOf(q) && IsExact(PrimTypeOf(p), to)
    requires Widen(p, to) == Widen(q, to)
    ensures p == q
  {
  }

  /** The conversion operators to int8_t … double and std::string: they
      succeed exactly when the held tag's kind widens to the requested one,
      and otherwise throw bad_cast. */
  function Convert(v: Value, to: PrimType): (r: Result<Prim, CastError>)
    ensures r.Success? <==> v.Some? && Widens(TypeOf(v.value), to)
    ensures r.Failure? ==> r.error == BadCast
    ensures r.Success? ==> PrimTypeOf(r.value) == to
    ensures r.Success? && IsIntegral(to) ==> IntegerOf(r.value) == IntegerOf(PayloadOf(v.value).value)
    ensures r.Success? && to == TypeOf(v.value) ==> r.value == PayloadOf(v.value).value
  {
    if v.None? then Failure(BadCast)
    else
      match PayloadOf(v.value)
      case None => Failure(BadCast)
      case Some(p) =>
        if Widens(PrimTypeOf(p), to) then Success(Widen(p, to)) else Failure(BadCast)
  }

  /** The assignment operators from int8_t … double and std::string: they
      succeed exactly when the assigned type widens to the held tag's kind,
      writing the widened payload into the held tag, and otherwise throw
      bad_cast.  The kind of the held tag never changes. */
  function Assign(v: Value, p: Prim): (r: Result<Value, CastError>)
    ensures r.Success? <==> v.Some? && Widens(PrimTypeOf(p), TypeOf(v.value))
    ensures r.Failure? ==> r.error == BadCast
    ensures r.Success? ==> r.value.Some? && GetType(r.value) == GetType(v)
  {
    if v.None? || !Widens(PrimTypeOf(p), TypeOf(v.value)) then Failure(BadCast)
    else Success(Some(TagOf(Widen(p, TypeOf(v.value)))))
  }

  /** After a successful assignment, converting back to the held kind
      yields the assigned primitive widened to that kind; when the kinds
      are equal it yields the assigned primitive itself, and an assigned
      integer is read back unchanged. */
  lemma AssignThenConvert(v: Value, p: Prim)
    requires Assign(v, p).Success?
    ensures Convert(Assign(v, p).value, GetType(v)) == Success(Widen(p, GetType(v)))
    ensures PrimTypeOf(p) == GetType(v) ==> Convert(Assign(v, p).value, PrimTypeOf(p)) == Success(p)
    ensures IsIntegral(PrimTypeOf(p)) && IsIntegral(GetType(v)) ==>
              IntegerOf(Convert(Assign(v, p).value, GetType(v)).value) == IntegerOf(p)
  {
  }

  /** Assignment only replaces the payload: its outcome depends on the held
      kind, not on the payload held before. */
  lemma AssignIgnoresOldPayload(v: Value, w: Value, p: Prim)
    requires GetType(v) == GetType(w)
    ensures Assign(v, p) == Assign(w, p)
  {
  }

  /** Assigning a number or string tag its own payload, as in
      `v = static_cast<int32_t>(v)` on an Int tag, leaves it unchanged. */
  lemma AssignOwnPayload(v: Value)
    requires v.Some? && IsPrimitive(GetType(v))
    ensures Assign(v, PayloadOf(v.value).value) == Success(v)
  {
    PayloadDeterminesTag(v.value);
  }

  /** A value holding a compound. */
  predicate IsCompound(v: Value) {
    v.Some? && v.value.TagCompound?
  }

  function Entries(v: Value): map<Bytes, Value>
    requires IsCompound(v)
  {
    v.value.entries
  }

  /** Checked compound access: bad_cast unless a compound is held,
      out_of_range if the key is absent, otherwise the entry. */
  function At(v: Value, key: Bytes): (r: Result<Value, CastError>)
    ensures r.Failure? <==> !IsCompound(v) || key !in Entries(v)
    ensures r.Failure? ==> (r.error == BadCast <==> GetType(v) != Compound)
    ensures r.Success? ==> r.value == Entries(v)[key]
  {
    if !IsCompound(v) then Failure(BadCast)
    else if key !in Entries(v) then Failure(OutOfRange)
    else Success(Entries(v)[key])
  }

  /** Compound indexing: bad_cast unless a compound is held; otherwise the
      entry for `key`, created as an empty value if absent.  Returns the
      value after the access together with the accessed entry. */
  function Index(v: Value, key: Bytes): (r: Result<(Value, Value), CastError>)
    ensures r.Failure? <==> GetType(v) != Compound
    ensures r.Failure? ==> r.error == BadCast
    ensures r.Success? ==>
              var (w, child) := r.value;
              && IsCompound(w)
              && Entries(w).Keys == Entries(v).Keys + {key}
              && Entries(w)[key] == child
              && (key !in Entries(v) ==> child.None?)
              && (forall k :: k in Entries(v) ==> Entries(w)[k] == Entries(v)[k])
  {
    if !IsCompound(v) then Failure(BadCast)
    else if key in Entries(v) then Success((v, Entries(v)[key]))
    else
      var child: Value := None;
      Success((Some(TagCompound(Entries(v)[key := child])), child))
  }

  /** The two access forms agree on present keys, where indexing changes
      nothing; on an absent key `at` fails with out_of_range while indexing
      succeeds, after which `at` finds the new empty entry. */
  lemma AtAndIndexAgree(v: Value, key: Bytes)
    requires IsCompound(v)
    ensures key in Entries(v) ==> Index(v, key) == Success((v, At(v, key).value))
    ensures key !in Entries(v) ==> At(v, key) == Failure(OutOfRange)
    ensures At(Index(v, key).value.0, key) == Success(Index(v, key).value.1)
  {
  }

  /** Indexing twice with one key is the same as indexing once. */
  lemma IndexIdempotent(v: Value, key: Bytes)
    requires IsCompound(v)
    ensures Index(Index(v, key).value.0, key) == Index(v, key)
  {
  }

  /** Tag equality: same kind and equal payloads, compared entry by entry
      for compounds and element by element for lists. */
  predicate TagEqual(a: Tag, b: Tag)
    ensures TagEqual(a, b) ==> TypeOf(a) == TypeOf(b)
    decreases a
  {
    match a
    case TagList(et, items) =>
      && b.TagList? && et == b.elemType && |items| == |b.items|
      && forall i :: 0 <= i < |items| ==> TagEqual(items[i], b.items[i])
    case TagCompound(es) =>
      && b.TagCompound? && es.Keys == b.entries.Keys
      && forall k :: k in es ==> Equal(es[k], b.entries[k])
    case _ => a == b
  }

  /** operator==: two values are equal when both hold a tag and the tags
      are equal. */
  predicate Equal(v: Value, w: Value)
    ensures Equal(v, w) ==> v.Some? && w.Some? && GetType(v) == GetType(w)
    decreases v
  {
    v.Some? && w.Some? && TagEqual(v.value, w.value)
  }

  /** A value is complete when it holds a tag and no compound anywhere
      inside it has an empty entry. */
  predicate Complete(v: Value)
    decreases v
  {
    v.Some? && TagComplete(v.value)
  }

  predicate TagComplete(t: Tag)
    decreases t
  {
    match t
    case TagList(_, items) => forall i :: 0 <= i < |items| ==> TagComplete(items[i])
    case TagCompound(es) => forall k :: k in es ==> Complete(es[k])
    case _ => true
  }

  /** Equality of values is identity restricted to complete values. */
  lemma {:induction false} EqualIffIdenticalAndComplete(v: Value, w: Value)
    ensures Equal(v, w) <==> v == w && Complete(v)
    decreases v, 1
  {
    if v.Some? && w.Some? {
      TagEqualIffIdenticalAndComplete(v.value, w.value);
    }
  }

  lemma {:induction false} TagEqualIffIdenticalAndComplete(a: Tag, b: Tag)
    ensures TagEqual(a, b) <==> a == b && TagComplete(a)
    decreases a, 0
  {
    match a
    case TagList(et, items) =>
      if b.TagList? && |items| == |b.items| {
        forall i | 0 <= i < |items|
          ensures TagEqual(items[i], b.items[i]) <==> items[i] == b.items[i] && TagComplete(items[i])
        {
          TagEqualIffIdenticalAndComplete(items[i], b.items[i]);
        }
        if TagEqual(a, b) {
          assert items == b.items;
        }
      }
    case TagCompound(es) =>
      if b.TagCompound? && es.Keys == b.entries.Keys {
        forall k | k in es
          ensures Equal(es[k], b.entries[k]) <==> es[k] == b.entries[k] && Complete(es[k])
        {
          EqualIffIdenticalAndComplete(es[k], b.entries[k]);
        }
        if TagEqual(a, b) {
          assert es == b.entries;
        }
      }
    case _ =>
  }

  /** Consequences: equality is symmetric, holds of a value and itself
      exactly when the value is complete, never holds of an empty value,
      and equal values report the same kind. */
  lemma EqualProperties(v: Value, w: Value)
    ensures Equal(v, w) <==> Equal(w, v)
    ensures Equal(v, v) <==> Complete(v)
    ensures v.None? ==> !Equal(v, w)
    ensures Equal(v, w) ==> GetType(v) == GetType(w)
  {
    EqualIffIdenticalAndComplete(v, w);
    EqualIffIdenticalAndComplete(w, v);
    EqualIffIdenticalAndComplete(v, v);
  }

  /** operator!=: the negation of operator==, so two values differ unless
      they are identical and complete. */
  function NotEqual(v: Value, w: Value): (r: bool)
    ensures r <==> !Equal(v, w)
    ensures r <==> v != w || !Complete(v)
  {
    EqualIffIdenticalAndComplete(v, w);
    !Equal(v, w)
  }
}
