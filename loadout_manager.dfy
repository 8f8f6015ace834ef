/**
  * LoadoutManager: the user's list of loadouts, which is saved to the client's
  * configuration store (when auto-save is on) and broadcast to the subscribed
  * views after every change.
  */
module LoadoutManagement {
  import opened Wrappers
  import opened Loadouts
  import opened DataIO

  /** The configuration group and key the loadouts are saved under. */
  const ConfigGroup: string := "LoadoutSaver"
  const ConfigKey: string := "savedloadouts"

  /** A loadout object: the list holds references, and removal compares them by identity. */
  class LoadoutRef {
    const loadout: Loadout

    constructor (l: Loadout)
      ensures loadout == l
    {
      loadout := l;
    }
  }

  /** A subscriber (a view of the list), compared by identity. */
  class Subscriber {
  }

  /** One setConfiguration call on the configuration store. */
  datatype StoreWrite = StoreWrite(group: string, key: string, value: string)

  /** One Update call: the list as `subscriber` received it. */
  datatype Delivery = Delivery(subscriber: Subscriber, loadouts: seq<LoadoutRef>)

  /** The loadout values the references point to, in order. */
  function Values(refs: seq<LoadoutRef>): (r: seq<Loadout>)
    ensures |r| == |refs| && forall i :: 0 <= i < |refs| ==> r[i] == refs[i].loadout
  {
    seq(|refs|, i requires 0 <= i < |refs| => refs[i].loadout)
  }

  /** The subscribers that received one of `ds`. */
  function Recipients(ds: seq<Delivery>): set<Subscriber>
  {
    set i | 0 <= i < |ds| :: ds[i].subscriber
  }

  lemma RecipientsAppend(ds: seq<Delivery>, d: Delivery)
    ensures Recipients(ds + [d]) == Recipients(ds) + {d.subscriber}
  {
    assert forall i :: 0 <= i < |ds| ==> (ds + [d])[i] == ds[i];
    assert (ds + [d])[|ds|] == d;
  }

  lemma AppendedPart<T>(a: seq<T>, b: seq<T>)
    ensures (a + b)[..|a|] == a && (a + b)[|a|..] == b
  {
  }

  /** Index of the first element of `s` equal to `x`, if any. */
  function FirstIndex<T(==)>(s: seq<T>, x: T): (r: Option<nat>)
    ensures r.None? <==> x !in s
    ensures r.Some? ==> r.value < |s| && s[r.value] == x && x !in s[..r.value]
  {
    if |s| == 0 then None
    else if s[0] == x then Some(0)
    else
      match FirstIndex(s[1..], x)
      case None => None
      case Some(i) =>
        assert s[..i + 1] == [s[0]] + s[1..][..i];
        Some(i + 1)
  }

  /**
    * List.remove(Object): the first occurrence of `x` taken out, the elements
    * before it kept in place and the ones after it moved up by one; the list
    * unchanged when `x` is not in it.
    */
  function RemoveFirst<T(==)>(s: seq<T>, x: T): (r: seq<T>)
    ensures x !in s ==> r == s
    ensures x in s ==> |r| == |s| - 1 && multiset(r) + multiset{x} == multiset(s)
    ensures x in s ==> exists i :: 0 <= i < |s| && s[i] == x && x !in s[..i] && r == s[..i] + s[i + 1..]
  {
    match FirstIndex(s, x)
    case None => s
    case Some(i) =>
      assert s == s[..i] + [x] + s[i + 1..];
      assert multiset(s) == multiset(s[..i]) + multiset{x} + multiset(s[i + 1..]);
      s[..i] + s[i + 1..]
  }

  /** One new loadout object per value, in order. */
  method NewRefs(values: seq<Loadout>) returns (refs: seq<LoadoutRef>)
    ensures Values(refs) == values
    ensures forall i :: 0 <= i < |refs| ==> fresh(refs[i])
  {
    refs := [];
    var i := 0;
    while i < |values|
      invariant 0 <= i <= |values|
      invariant Values(refs) == values[..i]
      invariant forall j :: 0 <= j < |refs| ==> fresh(refs[j])
    {
      var r := new LoadoutRef(values[i]);
      assert Values(refs + [r]) == Values(refs) + [r.loadout];
      assert values[..i + 1] == values[..i] + [values[i]];
      refs := refs + [r];
      i := i + 1;
    }
    assert values[..|values|] == values;
  }

  /** Loadouts that can all be stored are read back from the saved text as they were. */
  lemma SavedReloads(refs: seq<LoadoutRef>)
    requires forall i :: 0 <= i < |refs| ==> Storable(refs[i].loadout)
    ensures FullSerialize(Values(refs)).Ok?
    ensures Parse(FullSerialize(Values(refs)).value) == Values(refs)
  {
    DataIO.RoundTrip(Values(refs));
  }

  /**
    * From `before` to `after`, each of `subscribers` has received `list`
    * exactly once, and nobody else has received anything.
    */
  ghost predicate Broadcast(before: seq<Delivery>, after: seq<Delivery>, subscribers: set<Subscriber>, list: seq<LoadoutRef>)
  {
    |before| <= |after| && after[..|before|] == before
    && var sent := after[|before|..];
       |sent| == |subscribers| && Recipients(sent) == subscribers
       && forall i :: 0 <= i < |sent| ==> sent[i].loadouts == list
  }

  /**
    * Part way through a broadcast of `list`: `sent` went to every subscriber
    * except the `remaining` ones, one delivery each.
    */
  ghost predicate Pending(sent: seq<Delivery>, remaining: set<Subscriber>, subscribers: set<Subscriber>, list: seq<LoadoutRef>)
  {
    remaining <= subscribers && Recipients(sent) == subscribers - remaining
    && |sent| + |remaining| == |subscribers|
    && forall i :: 0 <= i < |sent| ==> sent[i].loadouts == list
  }

  lemma PendingStep(sent: seq<Delivery>, remaining: set<Subscriber>, subscribers: set<Subscriber>,
                    list: seq<LoadoutRef>, s: Subscriber)
    requires Pending(sent, remaining, subscribers, list) && s in remaining
    ensures Pending(sent + [Delivery(s, list)], remaining - {s}, subscribers, list)
  {
    RecipientsAppend(sent, Delivery(s, list));
  }

  lemma PendingDone(before: seq<Delivery>, sent: seq<Delivery>, subscribers: set<Subscriber>, list: seq<LoadoutRef>)
    requires Pending(sent, {}, subscribers, list)
    ensures Broadcast(before, before + sent, subscribers, list)
  {
    AppendedPart(before, sent);
  }

  class LoadoutManager {
    /** The list of loadouts, in the order they were added. */
    var loadouts: seq<LoadoutRef>
    /** The subscribed views (a hash set). */
    var subscribers: set<Subscriber>
    /** The writes made to the configuration store, oldest first. */
    ghost var writes: seq<StoreWrite>
    /** The updates delivered to subscribers, oldest first. */
    ghost var deliveries: seq<Delivery>

    /**
      * The list starts as what DataIO.Parse reads from the stored text, one
      * new object per loadout; nothing is subscribed, written or delivered yet.
      */
    constructor (stored: string)
      ensures Values(loadouts) == Parse(stored)
      ensures forall i :: 0 <= i < |loadouts| ==> fresh(loadouts[i])
      ensures subscribers == {} && writes == [] && deliveries == []
    {
      var refs := NewRefs(Parse(stored));
      loadouts := refs;
      subscribers := {};
      writes := [];
      deliveries := [];
    }

    /** GetLoadouts: the current list, in order. */
    function GetLoadouts(): (r: seq<LoadoutRef>)
      reads this
      ensures Values(r) == Values(loadouts) && |r| == |loadouts|
    {
      loadouts
    }

    /** size(): the number of loadouts in the list. */
    function Size(): (n: nat)
      reads this
      ensures n == |Values(loadouts)|
    {
      |loadouts|
    }

    /**
      * Since `oldWrites`, the store has been written exactly as a save of the
      * current list does: once, with the serialised list, or not at all when
      * serialising throws (a loadout with a null equipment slot).
      */
    ghost predicate SavedOnce(oldWrites: seq<StoreWrite>, outcome: Result<()>)
      reads this
    {
      match FullSerialize(Values(loadouts))
      case Ok(text) => outcome == Ok(()) && writes == oldWrites + [StoreWrite(ConfigGroup, ConfigKey, text)]
      case Err(_) => outcome == Err(NullSlot) && writes == oldWrites
    }

    /**
      * What a list change does after updating the list: with auto-save on, one
      * save, which when it throws also ends the change; then one update to
      * every subscriber. With auto-save off nothing is written.
      */
    ghost predicate Published(oldWrites: seq<StoreWrite>, oldDeliveries: seq<Delivery>, autoSave: bool, outcome: Result<()>)
      reads this
    {
      if !autoSave then outcome == Ok(()) && writes == oldWrites && Broadcast(oldDeliveries, deliveries, subscribers, loadouts)
      else SavedOnce(oldWrites, outcome) && (if outcome.Ok? then Broadcast(oldDeliveries, deliveries, subscribers, loadouts) else deliveries == oldDeliveries)
    }

    /**
      * save(): the whole list, serialised, overwrites the saved loadouts.
      * When every loadout can be stored, reading the written text back gives
      * the current list.
      */
    method Save() returns (outcome: Result<()>)
      modifies this
      ensures loadouts == old(loadouts) && subscribers == old(subscribers) && deliveries == old(deliveries)
      ensures SavedOnce(old(writes), outcome)
      ensures (forall i :: 0 <= i < |loadouts| ==> Storable(loadouts[i].loadout)) ==>
        outcome.Ok? && Parse(writes[|writes| - 1].value) == Values(loadouts)
    {
      if forall i :: 0 <= i < |loadouts| ==> Storable(loadouts[i].loadout) {
        SavedReloads(loadouts);
      }
      match FullSerialize(Values(loadouts))
      case Err(_) =>
        outcome := Err(NullSlot);
      case Ok(serialized) =>
        writes := writes + [StoreWrite(ConfigGroup, ConfigKey, serialized)];
        outcome := Ok(());
    }

    /** The notification loop: every subscriber, in the set's order, receives the current list. */
    method Publish()
      modifies this
      ensures loadouts == old(loadouts) && subscribers == old(subscribers) && writes == old(writes)
      ensures Broadcast(old(deliveries), deliveries, subscribers, loadouts)
    {
      var remaining := subscribers;
      ghost var sent: seq<Delivery> := [];
      while remaining != {}
        modifies this`deliveries
        invariant Pending(sent, remaining, subscribers, loadouts)
        invariant deliveries == old(deliveries) + sent
        decreases |remaining|
      {
        var s :| s in remaining;
        PendingStep(sent, remaining, subscribers, loadouts, s);
        deliveries := deliveries + [Delivery(s, GetLoadouts())];
        sent := sent + [Delivery(s, loadouts)];
        remaining := remaining - {s};
      }
      PendingDone(old(deliveries), sent, subscribers, loadouts);
    }

    /** The common tail of the three list changes: save if asked to, then notify. */
    method SaveAndPublish(autoSave: bool) returns (outcome: Result<()>)
      modifies this
      ensures loadouts == old(loadouts) && subscribers == old(subscribers)
      ensures Published(old(writes), old(deliveries), autoSave, outcome)
    {
      outcome := Ok(());
      if autoSave {
        outcome := Save();
        if outcome.Err? {
          return;
        }
      }
      Publish();
    }

    /** AddLoadout: the loadout goes at the end of the list, the others stay as they were. */
    method AddLoadout(loadout: LoadoutRef, autoSave: bool) returns (outcome: Result<()>)
      modifies this
      ensures loadouts == old(loadouts) + [loadout]
      ensures Values(loadouts) == Values(old(loadouts)) + [loadout.loadout]
      ensures subscribers == old(subscribers)
      ensures Published(old(writes), old(deliveries), autoSave, outcome)
    {
      loadouts := loadouts + [loadout];
      assert Values(loadouts) == Values(old(loadouts)) + [loadout.loadout];
      outcome := SaveAndPublish(autoSave);
    }

    /** RemoveLoadout: the first reference to this loadout object leaves the list, if there is one. */
    method RemoveLoadout(loadout: LoadoutRef, autoSave: bool) returns (outcome: Result<()>)
      modifies this
      ensures loadouts == RemoveFirst(old(loadouts), loadout)
      ensures loadout !in old(loadouts) ==> loadouts == old(loadouts)
      ensures loadout in old(loadouts) ==>
        |loadouts| == |old(loadouts)| - 1 && multiset(loadouts) + multiset{loadout} == multiset(old(loadouts))
      ensures subscribers == old(subscribers)
      ensures Published(old(writes), old(deliveries), autoSave, outcome)
    {
      loadouts := RemoveFirst(loadouts, loadout);
      outcome := SaveAndPublish(autoSave);
    }

    /** ClearLoadouts: the list becomes empty. */
    method ClearLoadouts(autoSave: bool) returns (outcome: Result<()>)
      modifies this
      ensures loadouts == [] && Size() == 0
      ensures subscribers == old(subscribers)
      ensures Published(old(writes), old(deliveries), autoSave, outcome)
    {
      loadouts := [];
      outcome := SaveAndPublish(autoSave);
    }

    /** Subscribe: the subscriber joins the set and at once receives the current list. */
    method Subscribe(subscriber: Subscriber)
      modifies this
      ensures subscribers == old(subscribers) + {subscriber}
      ensures deliveries == old(deliveries) + [Delivery(subscriber, loadouts)]
      ensures loadouts == old(loadouts) && writes == old(writes)
    {
      subscribers := subscribers + {subscriber};
      deliveries := deliveries + [Delivery(subscriber, GetLoadouts())];
    }

    /** UnSubscribe: the subscriber leaves the set; nothing is delivered. */
    method UnSubscribe(subscriber: Subscriber)
      modifies this
      ensures subscribers == old(subscribers) - {subscriber}
      ensures loadouts == old(loadouts) && writes == old(writes) && deliveries == old(deliveries)
    {
      subscribers := subscribers - {subscriber};
    }
  }

  /** A broadcast reaches no one outside the subscriber set: an unsubscribed view receives nothing new. */
  lemma UnsubscribedNotNotified(before: seq<Delivery>, after: seq<Delivery>, subscribers: set<Subscriber>,
                                list: seq<LoadoutRef>, s: Subscriber)
    requires Broadcast(before, after, subscribers, list) && s !in subscribers
    ensures forall i :: |before| <= i < |after| ==> after[i].subscriber != s
  {
    var sent := after[|before|..];
    forall i | |before| <= i < |after|
      ensures after[i].subscriber != s
    {
      assert after[i] == sent[i - |before|];
    }
  }
}
