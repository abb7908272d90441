/**
 * App store (src/app/AppState.ts): the current screen and selected level, and a
 * set of change listeners notified on every screen change.
 *
 * Listeners are opaque ids. A JavaScript Set iterates in insertion order, so the
 * set is a duplicate-free sequence; the calls made to listeners are recorded in a
 * ghost notification log.
 */
module AppStore {
  import opened Options

  datatype ScreenType = Landing | LevelSelect | Game

  datatype AppState = AppState(currentScreen: ScreenType, selectedLevel: Option<int>)

  type ListenerId = nat

  /** One call of a listener with the state it was given. */
  datatype Notification = Notification(listener: ListenerId, state: AppState)

  predicate NoDuplicates(listeners: seq<ListenerId>) {
    forall i, j :: 0 <= i < j < |listeners| ==> listeners[i] != listeners[j]
  }

  /** Set.add: appended when new, otherwise the set is unchanged. */
  function Added(listeners: seq<ListenerId>, listener: ListenerId): (r: seq<ListenerId>)
    ensures forall l :: l in r <==> l in listeners || l == listener
    ensures NoDuplicates(listeners) ==> NoDuplicates(r)
    ensures listener in listeners ==> r == listeners
    ensures listener !in listeners ==> r == listeners + [listener]
  {
    if listener in listeners then listeners else listeners + [listener]
  }

  /** Set.delete: the listener is gone, every other keeps its place in the order. */
  function Removed(listeners: seq<ListenerId>, listener: ListenerId): (r: seq<ListenerId>)
    ensures forall l :: l in r <==> l in listeners && l != listener
    ensures NoDuplicates(listeners) ==> NoDuplicates(r)
    ensures listener !in listeners ==> r == listeners
    ensures NoDuplicates(listeners) && listener in listeners ==> |r| == |listeners| - 1
  {
    if listeners == [] then []
    else
      assert NoDuplicates(listeners) ==> NoDuplicates(listeners[1..]) && listeners[0] !in listeners[1..];
      if listeners[0] == listener then Removed(listeners[1..], listener)
      else [listeners[0]] + Removed(listeners[1..], listener)
  }

  /** The calls notifyListeners makes: every listener once, in order, with the same state. */
  function Notifications(listeners: seq<ListenerId>, state: AppState): (r: seq<Notification>)
    ensures |r| == |listeners|
    ensures forall i :: 0 <= i < |r| ==> r[i] == Notification(listeners[i], state)
  {
    seq(|listeners|, i requires 0 <= i < |listeners| => Notification(listeners[i], state))
  }

  /** A subscribed listener is notified exactly once per notification round, and an unsubscribed one never. */
  lemma NotifiedOnce(listeners: seq<ListenerId>, state: AppState, listener: ListenerId)
    requires NoDuplicates(listeners)
    ensures listener in listeners ==>
      exists i :: 0 <= i < |listeners| && Notifications(listeners, state)[i] == Notification(listener, state)
    ensures forall i, j :: 0 <= i < j < |listeners| ==>
      Notifications(listeners, state)[i].listener != Notifications(listeners, state)[j].listener
    ensures listener !in listeners ==>
      forall n :: n in Notifications(listeners, state) ==> n.listener != listener
  {
    if listener in listeners {
      var i :| 0 <= i < |listeners| && listeners[i] == listener;
      assert Notifications(listeners, state)[i] == Notification(listener, state);
    }
  }

  class AppStateManager {
    var state: AppState
    var listeners: seq<ListenerId>
    ghost var log: seq<Notification>

    ghost predicate Valid()
      reads this
    {
      NoDuplicates(listeners)
    }

    /** The landing screen, no selected level, no listeners. */
    constructor ()
      ensures Valid()
      ensures state == AppState(Landing, None) && listeners == [] && log == []
    {
      state := AppState(Landing, None);
      listeners := [];
      log := [];
    }

    /** getState: a copy equal to the current state. */
    method GetState() returns (s: AppState)
      ensures s == state
    {
      s := state;
    }

    /** setScreen: the state becomes exactly (screen, selectedLevel), then every listener is told. */
    method SetScreen(screen: ScreenType, selectedLevel: Option<int>)
      requires Valid()
      modifies this
      ensures Valid()
      ensures state == AppState(screen, selectedLevel)
      ensures listeners == old(listeners)
      ensures log == old(log) + Notifications(listeners, state)
    {
      state := AppState(screen, selectedLevel);
      NotifyListeners();
    }

    /** subscribe: the listener joins the set; the state and the log do not change. */
    method Subscribe(listener: ListenerId)
      requires Valid()
      modifies this`listeners
      ensures Valid()
      ensures listeners == Added(old(listeners), listener)
    {
      listeners := Added(listeners, listener);
    }

    /** The disposer subscribe returns: removes that listener only and reports whether it was there. */
    method Unsubscribe(listener: ListenerId) returns (removed: bool)
      requires Valid()
      modifies this`listeners
      ensures Valid()
      ensures removed == (listener in old(listeners))
      ensures listeners == Removed(old(listeners), listener)
    {
      removed := listener in listeners;
      listeners := Removed(listeners, listener);
    }

    /** notifyListeners: each listener in order, called with a copy of the state. */
    method NotifyListeners()
      modifies this`log
      ensures log == old(log) + Notifications(listeners, state)
    {
      var i := 0;
      while i < |listeners|
        invariant 0 <= i <= |listeners|
        invariant log == old(log) + Notifications(listeners[..i], state)
      {
        var snapshot := GetState();
        log := log + [Notification(listeners[i], snapshot)];
        assert Notifications(listeners[..i + 1], state) == Notifications(listeners[..i], state) + [Notification(listeners[i], state)];
        i := i + 1;
      }
      assert listeners[..i] == listeners;
    }
  }

  /**
   * After an unsubscribe, a screen change reaches every other listener and not
   * the removed one.
   */
  method UnsubscribeThenNotify(store: AppStateManager, gone: ListenerId, screen: ScreenType)
    requires store.Valid()
    modifies store
    ensures |store.log| >= |old(store.log)|
    ensures forall l :: l in old(store.listeners) && l != gone ==>
      Notification(l, AppState(screen, None)) in store.log[|old(store.log)|..]
    ensures forall n :: n in store.log[|old(store.log)|..] ==> n.listener != gone
  {
    var _ := store.Unsubscribe(gone);
    store.SetScreen(screen, None);
    assert store.log[|old(store.log)|..] == Notifications(store.listeners, AppState(screen, None));
  }
}
