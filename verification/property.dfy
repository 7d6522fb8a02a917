/**
 The change-notifying `Name` property: a stored string that starts unset
 (`null`), and a setter that stores a different value and raises
 `PropertyChanged` carrying the property's name, or does nothing when the
 value equals the stored one.
 */
module PropertyChange {

  /** A C# string reference: either `null` or a string value. */
  datatype NullableString = Null | Str(value: string)

  /** The event payload: the name of the property that changed. */
  datatype PropertyEventArgs = PropertyEventArgs(propertyName: string)

  /** The object holding the property; only its backing field is state. */
  datatype NameHolder = NameHolder(name: NullableString)

  /** The holder after one or more assignments, with the notifications
      raised on the way, oldest first. */
  datatype Assigned = Assigned(holder: NameHolder, events: seq<PropertyEventArgs>)

  /** The name the notification carries (`nameof(Name)`). */
  const NameProperty: string := "Name"

  /** A newly created holder: the backing field is unset. */
  function NewHolder(): (h: NameHolder)
    ensures h.name == Null
  {
    NameHolder(Null)
  }

  /** The setter: the getter afterwards returns `v`; an equal value leaves
      the holder as it was and raises nothing; a different value raises
      exactly one notification naming the property. */
  function SetName(h: NameHolder, v: NullableString): (r: Assigned)
    ensures r.holder.name == v
    ensures v == h.name ==> r.holder == h && r.events == []
    ensures v != h.name ==> r.events == [PropertyEventArgs(NameProperty)]
  {
    if h.name != v then Assigned(NameHolder(v), [PropertyEventArgs(NameProperty)])
    else Assigned(h, [])
  }

  /** Assignments in order, with every notification they raise. */
  function SetNames(h: NameHolder, vs: seq<NullableString>): (r: Assigned)
    decreases |vs|
  {
    if |vs| == 0 then Assigned(h, [])
    else
      var first := SetName(h, vs[0]);
      var rest := SetNames(first.holder, vs[1..]);
      Assigned(rest.holder, first.events + rest.events)
  }

  /** The value the getter returns after assigning `vs` to a field holding
      `start`. */
  function LastValue(start: NullableString, vs: seq<NullableString>): NullableString {
    if |vs| == 0 then start else vs[|vs| - 1]
  }

  /** Reference count of value changes in a run of assignments: an
      assignment counts when it differs from the value before it. */
  function Changes(start: NullableString, vs: seq<NullableString>): nat
    decreases |vs|
  {
    if |vs| == 0 then 0
    else
      var prefix := vs[..|vs| - 1];
      Changes(start, prefix) + (if vs[|vs| - 1] != LastValue(start, prefix) then 1 else 0)
  }

  /** Assigning `a` then `b` is assigning `a + b`. */
  lemma {:induction false} SetNamesAppend(h: NameHolder, a: seq<NullableString>, b: seq<NullableString>)
    ensures SetNames(h, a + b).holder == SetNames(SetNames(h, a).holder, b).holder
    ensures SetNames(h, a + b).events == SetNames(h, a).events + SetNames(SetNames(h, a).holder, b).events
    decreases |a|
  {
    if |a| > 0 {
      assert (a + b)[0] == a[0];
      assert (a + b)[1..] == a[1..] + b;
      SetNamesAppend(SetName(h, a[0]).holder, a[1..], b);
    } else {
      assert a + b == b;
    }
  }

  /** After any run of assignments the getter returns the last value
      assigned, every notification names `Name`, and there is exactly one
      notification per assignment that changed the value. */
  lemma {:induction false} SetNamesCountsChanges(h: NameHolder, vs: seq<NullableString>)
    ensures SetNames(h, vs).holder.name == LastValue(h.name, vs)
    ensures |SetNames(h, vs).events| == Changes(h.name, vs)
    ensures forall e <- SetNames(h, vs).events :: e == PropertyEventArgs(NameProperty)
    decreases |vs|
  {
    if |vs| > 0 {
      var prefix := vs[..|vs| - 1];
      var last := vs[|vs| - 1];
      assert vs == prefix + [last];
      SetNamesCountsChanges(h, prefix);
      SetNamesAppend(h, prefix, [last]);
      var mid := SetNames(h, prefix).holder;
      assert SetNames(mid, [last]) == SetName(mid, last);
    }
  }

  /** A run of assignments is silent iff every assignment repeats the
      value already stored. */
  lemma {:induction false} SilentIffNoChange(h: NameHolder, vs: seq<NullableString>)
    ensures SetNames(h, vs).events == [] <==> forall i :: 0 <= i < |vs| ==> vs[i] == h.name
    decreases |vs|
  {
    if |vs| > 0 {
      SilentIffNoChange(SetName(h, vs[0]).holder, vs[1..]);
      if vs[0] == h.name {
        forall i | 0 <= i < |vs| - 1 ensures vs[1..][i] == vs[i + 1] {}
        if SetNames(h, vs).events == [] {
          forall i | 0 <= i < |vs| ensures vs[i] == h.name {
            if i > 0 { assert vs[i] == vs[1..][i - 1]; }
          }
        }
      }
    }
  }

  /** Assigning the same value twice: the second assignment changes
      nothing and raises nothing. */
  lemma SetNameIdempotent(h: NameHolder, v: NullableString)
    ensures SetName(SetName(h, v).holder, v) == Assigned(SetName(h, v).holder, [])
  {
  }

  /** Assigning the same value twice in a row raises at most one
      notification, and one exactly when the value was new. */
  lemma SetTwiceNotifiesOnce(h: NameHolder, v: NullableString)
    ensures |SetNames(h, [v, v]).events| == if v != h.name then 1 else 0
    ensures SetNames(h, [v, v]).holder.name == v
  {
    SetNamesAppend(h, [v], [v]);
    assert [v] + [v] == [v, v];
    assert SetNames(h, [v]) == SetName(h, v);
  }

  /** The first assignment of a string to a new holder always notifies. */
  lemma FirstAssignmentNotifies(s: string)
    ensures SetName(NewHolder(), Str(s)).events == [PropertyEventArgs("Name")]
    ensures SetName(NewHolder(), Str(s)).holder.name == Str(s)
  {
  }
}
