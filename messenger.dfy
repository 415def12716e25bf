// The messenger: components publish named events into a queue; an update hands every queued
// event, in publication order, to the live subscribers of its name and then to the live
// universal subscribers. A subscriber is held weakly: once its component is gone its entry is
// purged and its callback is never invoked.
module Messengers {
  /** A component, by identity. Identities are never reused, so an entry naming a component
      the caller still holds is an entry of a live component. */
  type ComponentId = nat

  /** A callback, by identity: what it does when invoked is outside the model. */
  type CallbackId = nat

  datatype Event<D> = Event(name: string, sender: string, time: real, data: D)

  /** A (weakly held) component together with the callback to invoke for it. */
  datatype Subscriber = Subscriber(component: ComponentId, callback: CallbackId)

  /** One invocation of a callback with an event. */
  datatype Delivery<D> = Delivery(callback: CallbackId, event: Event<D>)

  /** The subscribers of an event name; a name never subscribed to has none. */
  function Get(subscribers: map<string, seq<Subscriber>>, name: string): seq<Subscriber> {
    if name in subscribers then subscribers[name] else []
  }

  /** Whether some entry of the list is for the component. */
  predicate Holds(list: seq<Subscriber>, component: ComponentId) {
    exists i :: 0 <= i < |list| && list[i].component == component
  }

  /** At most one entry per component. */
  predicate Unique(list: seq<Subscriber>) {
    forall i, j :: 0 <= i < j < |list| ==> list[i].component != list[j].component
  }

  /** Every list of the table has at most one entry per component. */
  predicate AllUnique(subscribers: map<string, seq<Subscriber>>) {
    forall name :: name in subscribers ==> Unique(subscribers[name])
  }

  /** The table part way through unsubscribing a component from every name: the names still
      to do are as they were, the others have lost the component's entries. */
  predicate RemovedExcept(subscribers: map<string, seq<Subscriber>>, original: map<string, seq<Subscriber>>,
                          todo: set<string>, component: ComponentId) {
    && subscribers.Keys == original.Keys
    && forall name :: name in subscribers ==>
         subscribers[name] == if name in todo then original[name] else Without(original[name], component)
  }

  /** The list after subscribing: the new entry is appended unless the component already has one. */
  function Subscribed(list: seq<Subscriber>, component: ComponentId, callback: CallbackId): seq<Subscriber> {
    if Holds(list, component) then list else list + [Subscriber(component, callback)]
  }

  /** The list without the entries of the component, the others in their order. */
  function Without(list: seq<Subscriber>, component: ComponentId): seq<Subscriber> {
    if list == [] then []
    else if list[|list| - 1].component == component then Without(list[..|list| - 1], component)
    else Without(list[..|list| - 1], component) + [list[|list| - 1]]
  }

  /** The list without the entries of components that are gone, the others in their order. */
  function Live(list: seq<Subscriber>, alive: set<ComponentId>): seq<Subscriber> {
    if list == [] then []
    else if list[|list| - 1].component in alive then Live(list[..|list| - 1], alive) + [list[|list| - 1]]
    else Live(list[..|list| - 1], alive)
  }

  /** The invocations sendEvent makes: the callback of each entry whose component is still
      alive, in the order of the list. */
  function Notified<D>(event: Event<D>, list: seq<Subscriber>, alive: set<ComponentId>): seq<Delivery<D>> {
    if list == [] then []
    else if list[|list| - 1].component in alive
    then Notified(event, list[..|list| - 1], alive) + [Delivery(list[|list| - 1].callback, event)]
    else Notified(event, list[..|list| - 1], alive)
  }

  /** The invocations of one update: for each queued event in order, the live subscribers of
      its name, then the live universal subscribers. */
  function Deliveries<D>(events: seq<Event<D>>, subscribers: map<string, seq<Subscriber>>,
                         universal: seq<Subscriber>, alive: set<ComponentId>): seq<Delivery<D>> {
    if events == [] then []
    else
      var event := events[|events| - 1];
      Deliveries(events[..|events| - 1], subscribers, universal, alive)
      + EventDeliveries(event, Get(subscribers, event.name), universal, alive)
  }

  /** The invocations for one event: its live subscribers, then the live universal subscribers. */
  function EventDeliveries<D>(event: Event<D>, receivers: seq<Subscriber>, universal: seq<Subscriber>,
                              alive: set<ComponentId>): seq<Delivery<D>> {
    Notified(event, receivers, alive) + Notified(event, universal, alive)
  }

  /** The subscriber table after update has purged, for each event in turn, the entries of its
      name (creating an empty entry for a name never subscribed to). */
  function Purged<D>(subscribers: map<string, seq<Subscriber>>, events: seq<Event<D>>,
                     alive: set<ComponentId>): map<string, seq<Subscriber>> {
    if events == [] then subscribers
    else
      var before := Purged(subscribers, events[..|events| - 1], alive);
      var name := events[|events| - 1].name;
      before[name := Live(Get(before, name), alive)]
  }

  lemma {:induction false} SubscribedHolds(list: seq<Subscriber>, component: ComponentId, callback: CallbackId)
    ensures Holds(Subscribed(list, component, callback), component)
  {
    if !Holds(list, component) {
      var r := Subscribed(list, component, callback);
      assert r[|r| - 1].component == component;
    }
  }

  /** Subscribing twice is subscribing once: the second call finds the entry of the first. */
  lemma SubscribeIdempotent(list: seq<Subscriber>, component: ComponentId, first: CallbackId, second: CallbackId)
    ensures Subscribed(Subscribed(list, component, first), component, second) == Subscribed(list, component, first)
  {
    SubscribedHolds(list, component, first);
  }

  /** Subscribing keeps at most one entry per component. */
  lemma SubscribeKeepsUnique(list: seq<Subscriber>, component: ComponentId, callback: CallbackId)
    requires Unique(list)
    ensures Unique(Subscribed(list, component, callback))
  {
  }

  /** Exactly the entries of other components remain after removing a component. */
  lemma {:induction false} WithoutMembers(list: seq<Subscriber>, component: ComponentId, x: Subscriber)
    ensures x in Without(list, component) <==> x in list && x.component != component
  {
    if list != [] {
      WithoutMembers(list[..|list| - 1], component, x);
      assert list == list[..|list| - 1] + [list[|list| - 1]];
    }
  }

  /** Removing a component keeps the remaining entries in their order: the result is a
      subsequence of the list. */
  lemma {:induction false} WithoutIsSubsequence(list: seq<Subscriber>, component: ComponentId)
    ensures |Without(list, component)| <= |list|
    ensures multiset(Without(list, component)) <= multiset(list)
  {
    if list != [] {
      WithoutIsSubsequence(list[..|list| - 1], component);
      assert list == list[..|list| - 1] + [list[|list| - 1]];
    }
  }

  /** Removing a component keeps at most one entry per component. */
  lemma {:induction false} WithoutKeepsUnique(list: seq<Subscriber>, component: ComponentId)
    requires Unique(list)
    ensures Unique(Without(list, component))
  {
    if list != [] {
      var init := list[..|list| - 1];
      var last := list[|list| - 1];
      WithoutKeepsUnique(init, component);
      forall x | x in Without(init, component)
        ensures x.component != last.component
      {
        WithoutMembers(init, component, x);
        var i :| 0 <= i < |init| && init[i] == x;
        assert list[i] == x;
      }
    }
  }

  /** Exactly the entries of live components survive the purge. */
  lemma {:induction false} LiveMembers(list: seq<Subscriber>, alive: set<ComponentId>, x: Subscriber)
    ensures x in Live(list, alive) <==> x in list && x.component in alive
  {
    if list != [] {
      LiveMembers(list[..|list| - 1], alive, x);
      assert list == list[..|list| - 1] + [list[|list| - 1]];
    }
  }

  /** Purging twice is purging once. */
  lemma {:induction false} LiveIdempotent(list: seq<Subscriber>, alive: set<ComponentId>)
    ensures Live(Live(list, alive), alive) == Live(list, alive)
  {
    if list != [] {
      var init := list[..|list| - 1];
      LiveIdempotent(init, alive);
      if list[|list| - 1].component in alive {
        var r := Live(init, alive) + [list[|list| - 1]];
        assert r[..|r| - 1] == Live(init, alive);
      }
    }
  }

  /** The purge keeps at most one entry per component. */
  lemma {:induction false} LiveKeepsUnique(list: seq<Subscriber>, alive: set<ComponentId>)
    requires Unique(list)
    ensures Unique(Live(list, alive))
  {
    if list != [] {
      var init := list[..|list| - 1];
      var last := list[|list| - 1];
      LiveKeepsUnique(init, alive);
      forall x | x in Live(init, alive)
        ensures x.component != last.component
      {
        LiveMembers(init, alive, x);
        var i :| 0 <= i < |init| && init[i] == x;
        assert list[i] == x;
      }
    }
  }

  /** The purge is invisible to the callbacks: sendEvent skips the entries it removes. */
  lemma {:induction false} NotifiedLive<D>(event: Event<D>, list: seq<Subscriber>, alive: set<ComponentId>)
    ensures Notified(event, Live(list, alive), alive) == Notified(event, list, alive)
  {
    if list != [] {
      var init := list[..|list| - 1];
      NotifiedLive(event, init, alive);
      if list[|list| - 1].component in alive {
        var r := Live(init, alive) + [list[|list| - 1]];
        assert r[..|r| - 1] == Live(init, alive);
      }
    }
  }

  /** sendEvent invokes a callback with the event exactly when the list has an entry with that
      callback for a live component: expired subscribers are never invoked. */
  lemma {:induction false} NotifiedMembers<D>(event: Event<D>, list: seq<Subscriber>, alive: set<ComponentId>,
                                              d: Delivery<D>)
    ensures d in Notified(event, list, alive)
            <==> d.event == event && exists x :: x in list && x.component in alive && x.callback == d.callback
  {
    if list != [] {
      var init := list[..|list| - 1];
      NotifiedMembers(event, init, alive, d);
      assert list == init + [list[|list| - 1]];
    }
  }

  /** sendEvent invokes one callback per live entry, in the order of the list. */
  lemma {:induction false} NotifiedOrder<D>(event: Event<D>, list: seq<Subscriber>, alive: set<ComponentId>)
    ensures |Notified(event, list, alive)| == |Live(list, alive)|
    ensures forall i :: 0 <= i < |Live(list, alive)|
                        ==> Notified(event, list, alive)[i] == Delivery(Live(list, alive)[i].callback, event)
  {
    if list != [] {
      NotifiedOrder(event, list[..|list| - 1], alive);
    }
  }

  /** After update has purged the entries of some events, the live entries of any name are
      those it had before. */
  lemma {:induction false} PurgedGet<D>(subscribers: map<string, seq<Subscriber>>, events: seq<Event<D>>,
                                        alive: set<ComponentId>, name: string)
    ensures Live(Get(Purged(subscribers, events, alive), name), alive) == Live(Get(subscribers, name), alive)
  {
    if events != [] {
      var before := Purged(subscribers, events[..|events| - 1], alive);
      PurgedGet(subscribers, events[..|events| - 1], alive, name);
      if events[|events| - 1].name == name {
        LiveIdempotent(Get(before, name), alive);
      }
    }
  }

  /** The purge keeps at most one entry per component in every list of the table. */
  lemma {:induction false} PurgedKeepsUnique<D>(subscribers: map<string, seq<Subscriber>>, events: seq<Event<D>>,
                                                alive: set<ComponentId>)
    requires AllUnique(subscribers)
    ensures AllUnique(Purged(subscribers, events, alive))
  {
    if events != [] {
      var before := Purged(subscribers, events[..|events| - 1], alive);
      PurgedKeepsUnique(subscribers, events[..|events| - 1], alive);
      LiveKeepsUnique(Get(before, events[|events| - 1].name), alive);
    }
  }

  /** Every queued event reaches every live universal subscriber. */
  lemma {:induction false} UniversalGetsEveryEvent<D>(events: seq<Event<D>>, subscribers: map<string, seq<Subscriber>>,
                                                      universal: seq<Subscriber>, alive: set<ComponentId>,
                                                      k: nat, x: Subscriber)
    requires k < |events| && x in universal && x.component in alive
    ensures Delivery(x.callback, events[k]) in Deliveries(events, subscribers, universal, alive)
  {
    var init := events[..|events| - 1];
    if k == |events| - 1 {
      NotifiedMembers(events[k], universal, alive, Delivery(x.callback, events[k]));
    } else {
      UniversalGetsEveryEvent(init, subscribers, universal, alive, k, x);
      assert init[k] == events[k];
    }
  }

  /** The messenger: the queue of published events, the subscribers of each name, the
      universal subscribers, and the record of callback invocations. */
  class Messenger<D> {
    var events: seq<Event<D>>
    var subscribers: map<string, seq<Subscriber>>
    var universal: seq<Subscriber>
    var log: seq<Delivery<D>>

    /** Every subscriber list has at most one entry per component. */
    ghost predicate Valid()
      reads this
    {
      Unique(universal) && AllUnique(subscribers)
    }

    constructor ()
      ensures Valid()
      ensures events == [] && subscribers == map[] && universal == [] && log == []
    {
      events := [];
      subscribers := map[];
      universal := [];
      log := [];
    }

    /** publish: the event, stamped with the current time, joins the end of the queue. */
    method Publish(name: string, sender: string, now: real, data: D)
      modifies this
      ensures events == old(events) + [Event(name, sender, now, data)]
      ensures subscribers == old(subscribers) && universal == old(universal) && log == old(log)
    {
      events := events + [Event(name, sender, now, data)];
    }

    /** The search of subscribe: whether the list has an entry for the component. */
    static method Find(list: seq<Subscriber>, component: ComponentId) returns (found: bool)
      ensures found <==> Holds(list, component)
    {
      for i := 0 to |list|
        invariant forall j :: 0 <= j < i ==> list[j].component != component
      {
        if list[i].component == component {
          return true;
        }
      }
      return false;
    }

    /** The erase-remove of unsubscribe: the entries of the component go, the rest keep their order. */
    static method Remove(list: seq<Subscriber>, component: ComponentId) returns (kept: seq<Subscriber>)
      ensures kept == Without(list, component)
    {
      kept := [];
      for i := 0 to |list|
        invariant kept == Without(list[..i], component)
      {
        assert list[..i + 1][..i] == list[..i];
        if list[i].component != component {
          kept := kept + [list[i]];
        }
      }
      assert list[..|list|] == list;
    }

    /** subscribe to one event: the entry is appended to the subscribers of the name unless the
        component already has one there; the name gets an entry in the table either way. */
    method Subscribe(name: string, component: ComponentId, callback: CallbackId)
      requires Valid()
      modifies this
      ensures Valid()
      ensures subscribers == old(subscribers)[name := Subscribed(Get(old(subscribers), name), component, callback)]
      ensures events == old(events) && universal == old(universal) && log == old(log)
    {
      var receivers := Get(subscribers, name);
      var found := Find(receivers, component);
      if !found {
        receivers := receivers + [Subscriber(component, callback)];
      }
      SubscribeKeepsUnique(Get(subscribers, name), component, callback);
      subscribers := subscribers[name := receivers];
    }

    /** subscribe to every event: the entry is appended to the universal subscribers unless
        the component already has one. */
    method SubscribeAll(component: ComponentId, callback: CallbackId)
      requires Valid()
      modifies this
      ensures Valid()
      ensures universal == Subscribed(old(universal), component, callback)
      ensures events == old(events) && subscribers == old(subscribers) && log == old(log)
    {
      var found := Find(universal, component);
      SubscribeKeepsUnique(universal, component, callback);
      if !found {
        universal := universal + [Subscriber(component, callback)];
      }
    }

    /** unsubscribe from one event: only that name's subscribers change, and an unknown name
        is left out of the table. */
    method Unsubscribe(name: string, component: ComponentId)
      requires Valid()
      modifies this
      ensures Valid()
      ensures subscribers == if name in old(subscribers)
                             then old(subscribers)[name := Without(old(subscribers)[name], component)]
                             else old(subscribers)
      ensures events == old(events) && universal == old(universal) && log == old(log)
    {
      if name in subscribers {
        WithoutKeepsUnique(subscribers[name], component);
        var kept := Remove(subscribers[name], component);
        subscribers := subscribers[name := kept];
      }
    }

    /** unsubscribe from everything: the component leaves the universal subscribers and the
        subscribers of every name. */
    method UnsubscribeAll(component: ComponentId)
      requires Valid()
      modifies this
      ensures Valid()
      ensures universal == Without(old(universal), component)
      ensures subscribers.Keys == old(subscribers).Keys
      ensures forall name :: name in subscribers ==> subscribers[name] == Without(old(subscribers)[name], component)
      ensures events == old(events) && log == old(log)
    {
      WithoutKeepsUnique(universal, component);
      universal := Remove(universal, component);
      var names := subscribers.Keys;
      while names != {}
        invariant names <= subscribers.Keys
        invariant AllUnique(subscribers)
        invariant RemovedExcept(subscribers, old(subscribers), names, component)
        invariant universal == Without(old(universal), component) && Unique(universal)
        invariant events == old(events) && log == old(log)
        decreases names
      {
        var name :| name in names;
        RemoveFrom(name, component, old(subscribers), names);
        names := names - {name};
      }
    }

    /** One step of unsubscribing from every name: the component leaves the subscribers of name. */
    method RemoveFrom(name: string, component: ComponentId, ghost original: map<string, seq<Subscriber>>,
                      ghost todo: set<string>)
      requires name in todo && todo <= subscribers.Keys && AllUnique(subscribers)
      requires RemovedExcept(subscribers, original, todo, component)
      modifies this
      ensures AllUnique(subscribers)
      ensures RemovedExcept(subscribers, original, todo - {name}, component)
      ensures subscribers == old(subscribers)[name := Without(old(subscribers)[name], component)]
      ensures events == old(events) && universal == old(universal) && log == old(log)
    {
      WithoutKeepsUnique(subscribers[name], component);
      var kept := Remove(subscribers[name], component);
      subscribers := subscribers[name := kept];
    }

    /** sendEvent: the callback of every entry whose component is alive is invoked, in order. */
    method SendEvent(event: Event<D>, list: seq<Subscriber>, alive: set<ComponentId>)
      modifies this
      ensures log == old(log) + Notified(event, list, alive)
      ensures events == old(events) && subscribers == old(subscribers) && universal == old(universal)
    {
      for i := 0 to |list|
        invariant log == old(log) + Notified(event, list[..i], alive)
        invariant events == old(events) && subscribers == old(subscribers) && universal == old(universal)
      {
        assert list[..i + 1][..i] == list[..i];
        if list[i].component in alive {
          log := log + [Delivery(list[i].callback, event)];
        }
      }
      assert list[..|list|] == list;
    }

    /** update: the queue is taken whole and emptied, the universal subscribers are purged, and each event in publication order goes to the
        live subscribers of its name, purged first, then to the live universal subscribers. */
    method Update(alive: set<ComponentId>)
      requires Valid()
      modifies this
      ensures Valid()
      ensures events == []
      ensures universal == Live(old(universal), alive)
      ensures subscribers == Purged(old(subscribers), old(events), alive)
      ensures log == old(log) + Deliveries(old(events), old(subscribers), old(universal), alive)
    {
      var queue := events;
      ghost var table, everyone, record := subscribers, universal, log;
      events := [];
      LiveKeepsUnique(universal, alive);
      universal := Live(universal, alive);
      var broadcast := universal;
      for i := 0 to |queue|
        invariant events == [] && universal == broadcast
        invariant subscribers == Purged(table, queue[..i], alive)
        invariant AllUnique(subscribers)
        invariant log == record + Deliveries(queue[..i], table, everyone, alive)
      {
        DeliveriesStep(queue, i, table, everyone, alive);
        ghost var sent := Deliveries(queue[..i], table, everyone, alive);
        Dispatch(queue[i], broadcast, alive);
        Associative(record, sent, EventDeliveries(queue[i], Get(Purged(table, queue[..i], alive), queue[i].name),
                                                  broadcast, alive));
      }
      assert queue[..|queue|] == queue;
    }

    /** One event of update: the subscribers of its name are purged, then it goes to them and
        to the universal subscribers. */
    method Dispatch(event: Event<D>, broadcast: seq<Subscriber>, alive: set<ComponentId>)
      requires AllUnique(subscribers)
      modifies this
      ensures AllUnique(subscribers)
      ensures subscribers == old(subscribers)[event.name := Live(Get(old(subscribers), event.name), alive)]
      ensures log == old(log) + EventDeliveries(event, Get(old(subscribers), event.name), broadcast, alive)
      ensures events == old(events) && universal == old(universal)
    {
      LiveKeepsUnique(Get(subscribers, event.name), alive);
      NotifiedLive(event, Get(subscribers, event.name), alive);
      var receivers := Live(Get(subscribers, event.name), alive);
      subscribers := subscribers[event.name := receivers];
      SendEvent(event, receivers, alive);
      SendEvent(event, broadcast, alive);
      Associative(old(log), Notified(event, receivers, alive), Notified(event, broadcast, alive));
    }
  }

  /** One more event of the queue: the table gains the purge of its name, and its deliveries,
      computed from the purged table and universal list, are those from the originals. */
  lemma DeliveriesStep<D>(queue: seq<Event<D>>, i: nat, subscribers: map<string, seq<Subscriber>>,
                          universal: seq<Subscriber>, alive: set<ComponentId>)
    requires i < |queue|
    ensures Purged(subscribers, queue[..i + 1], alive)
            == Purged(subscribers, queue[..i], alive)[queue[i].name
                 := Live(Get(Purged(subscribers, queue[..i], alive), queue[i].name), alive)]
    ensures Deliveries(queue[..i + 1], subscribers, universal, alive)
            == Deliveries(queue[..i], subscribers, universal, alive)
               + EventDeliveries(queue[i], Get(Purged(subscribers, queue[..i], alive), queue[i].name),
                                 Live(universal, alive), alive)
  {
    var event := queue[i];
    var current := Get(Purged(subscribers, queue[..i], alive), event.name);
    assert queue[..i + 1][..i] == queue[..i];
    PurgedGet(subscribers, queue[..i], alive, event.name);
    NotifiedLive(event, current, alive);
    NotifiedLive(event, Get(subscribers, event.name), alive);
    NotifiedLive(event, universal, alive);
  }

  lemma Associative<T>(a: seq<T>, b: seq<T>, c: seq<T>)
    ensures a + b + c == a + (b + c)
  {
  }
}
