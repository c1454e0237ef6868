/** The swipe view of js/events.js: the `EventManager` with its shortlist, activity log and
    catalog cursor, the per-card drag gesture, and the tag views derived from the shortlist. */
module EventManagement {
  import opened Seqs
  import opened JsStrings
  import opened Catalog

  /** Horizontal displacement, in pixels, beyond which a release is a decision. */
  const SwipeThreshold: int := 100
  /** The activity log keeps this many of the newest records. */
  const MaxActivity: nat := 20
  /** `loadEventCards` shows this many cards from the cursor on. */
  const CardsInStack: nat := 3

  // ---------------------------------------------------------------- activity log

  datatype Action = Saved | Removed

  /** A snapshot of the event at the time of the action; `id` and `timestamp` both come from the clock. */
  datatype Activity = Activity(
    id: int,
    action: Action,
    eventTitle: string,
    eventId: int,
    timestamp: int,
    tags: seq<string>)

  function Record(action: Action, e: Event, now: int): Activity
  {
    Activity(now, action, e.title, e.id, now, e.tags)
  }

  /** `unshift` followed by the cut to the newest `MaxActivity` records. */
  function PushActivity(log: seq<Activity>, a: Activity): (r: seq<Activity>)
    ensures |r| == Min(|log| + 1, MaxActivity)
    ensures r[0] == a
    ensures r[1..] == log[..Min(|log|, MaxActivity - 1)]
  {
    var l := [a] + log;
    if |l| > MaxActivity then l[..MaxActivity] else l
  }

  /** The log after recording each of `batch`, oldest first. */
  function LogAfter(log: seq<Activity>, batch: seq<Activity>): seq<Activity>
  {
    if batch == [] then log else PushActivity(LogAfter(log, batch[..|batch| - 1]), batch[|batch| - 1])
  }

  /** However many records are added, the log holds the newest `MaxActivity` of them (and of the old
      log behind them), newest first. */
  lemma {:induction false} LogAfterKeepsNewest(log: seq<Activity>, batch: seq<Activity>)
    requires |log| <= MaxActivity
    ensures LogAfter(log, batch) == (Reversed(batch) + log)[..Min(|batch| + |log|, MaxActivity)]
  {
    if batch == [] {
      assert Reversed(batch) + log == log;
    } else {
      var front, x := batch[..|batch| - 1], batch[|batch| - 1];
      LogAfterKeepsNewest(log, front);
      var all := Reversed(front) + log;
      var n := |batch| + |log|;
      assert Reversed(batch) == [x] + Reversed(front);
      assert Reversed(batch) + log == [x] + all;
      var prev := all[..Min(n - 1, MaxActivity)];
      assert LogAfter(log, batch) == PushActivity(prev, x);
      assert prev[..Min(|prev|, MaxActivity - 1)] == all[..Min(n - 1, MaxActivity - 1)];
      assert ([x] + all)[..Min(n, MaxActivity)] == [x] + all[..Min(n - 1, MaxActivity - 1)];
    }
  }

  // ---------------------------------------------------------------- shortlist

  /** The shortlist after `addToShortlist(e)`: appended unless its id is already there. */
  function Added(s: seq<Event>, e: Event): seq<Event>
  {
    if HasId(s, e.id) then s else s + [e]
  }

  /** The shortlist after `removeFromShortlist(id)`. */
  function Without(s: seq<Event>, id: int): seq<Event>
  {
    Filter((e: Event) => e.id != id, s)
  }

  /** The shortlist after a series of `addToShortlist` calls. */
  function AddedAll(s: seq<Event>, es: seq<Event>): seq<Event>
    decreases |es|
  {
    if es == [] then s else AddedAll(Added(s, es[0]), es[1..])
  }

  lemma AddedSpec(s: seq<Event>, e: Event)
    ensures HasId(Added(s, e), e.id)
    ensures forall id :: HasId(s, id) ==> HasId(Added(s, e), id)
    ensures IdsDistinct(s) ==> IdsDistinct(Added(s, e))
    ensures Subseq(s, Added(s, e))
  {
    if !HasId(s, e.id) {
      assert (s + [e])[|s|].id == e.id;
      forall id | HasId(s, id) ensures HasId(s + [e], id) {
        var i :| 0 <= i < |s| && s[i].id == id;
        assert (s + [e])[i].id == id;
      }
    }
    SubseqOfExtension(s, Added(s, e));
  }

  lemma {:induction false} SubseqOfExtension<T>(s: seq<T>, t: seq<T>)
    requires s <= t
    ensures Subseq(s, t)
  {
    if s != [] {
      SubseqOfExtension(s[1..], t[1..]);
    }
  }

  /** After any series of adds the ids are still distinct, and every added event's id is present. */
  lemma {:induction false} AddedAllSpec(s: seq<Event>, es: seq<Event>)
    requires IdsDistinct(s)
    ensures IdsDistinct(AddedAll(s, es))
    ensures forall i :: 0 <= i < |es| ==> HasId(AddedAll(s, es), es[i].id)
    ensures forall id :: HasId(s, id) ==> HasId(AddedAll(s, es), id)
    decreases |es|
  {
    if es != [] {
      AddedSpec(s, es[0]);
      AddedAllSpec(Added(s, es[0]), es[1..]);
      forall i | 0 < i < |es| ensures HasId(AddedAll(s, es), es[i].id) {
        assert es[1..][i - 1] == es[i];
      }
    }
  }

  /** A remove keeps exactly the entries with another id, in their order, and is void for an absent id. */
  lemma WithoutSpec(s: seq<Event>, id: int)
    ensures Subseq(Without(s, id), s)
    ensures forall e :: e in Without(s, id) <==> e in s && e.id != id
    ensures !HasId(Without(s, id), id)
    ensures !HasId(s, id) ==> Without(s, id) == s
    ensures IdsDistinct(s) ==> IdsDistinct(Without(s, id))
  {
    var p := (e: Event) => e.id != id;
    FilterIsSubseq(p, s);
    if !HasId(s, id) {
      FilterAll(p, s);
    }
    if IdsDistinct(s) {
      FilterKeepsIdsDistinct(p, s);
    }
  }

  lemma {:induction false} FilterKeepsIdsDistinct(p: Event -> bool, s: seq<Event>)
    requires IdsDistinct(s)
    ensures IdsDistinct(Filter(p, s))
  {
    if s != [] {
      FilterKeepsIdsDistinct(p, s[1..]);
      var rest := Filter(p, s[1..]);
      forall j | 0 <= j < |rest| ensures rest[j].id != s[0].id {
        assert rest[j] in s[1..];
      }
    }
  }

  /** Removing an event and adding it again makes it present once more, at the end. */
  lemma RemoveThenAdd(s: seq<Event>, e: Event)
    ensures Added(Without(s, e.id), e) == Without(s, e.id) + [e]
    ensures HasId(Added(Without(s, e.id), e), e.id)
  {
    WithoutSpec(s, e.id);
    AddedSpec(Without(s, e.id), e);
  }

  // ---------------------------------------------------------------- tag views

  /** Occurrences of `t` across the tag lists of `events`, counting repeats within one list. */
  ghost function TagCount(events: seq<Event>, t: string): nat
  {
    if events == [] then 0
    else TagCount(events[..|events| - 1], t) + Count(events[|events| - 1].tags, t)
  }

  /** The group `getEventsByTag()` builds for `t`: each event once per occurrence of `t` in its tags. */
  ghost function TagGroup(events: seq<Event>, t: string): seq<Event>
  {
    if events == [] then []
    else
      var last := events[|events| - 1];
      TagGroup(events[..|events| - 1], t) + Repeat(last, Count(last.tags, t))
  }

  /** A tag has a positive count exactly when some event carries it; its group is as long as its
      count and holds exactly the events that carry it. */
  lemma {:induction false} TagViewsAgree(events: seq<Event>, t: string)
    ensures TagCount(events, t) > 0 <==> t in TagsOf(events)
    ensures |TagGroup(events, t)| == TagCount(events, t)
    ensures forall e :: e in TagGroup(events, t) <==> e in events && t in e.tags
  {
    if events != [] {
      var front, last := events[..|events| - 1], events[|events| - 1];
      TagViewsAgree(front, t);
      assert events == front + [last];
      CountPositive(last.tags, t);
    }
  }

  /** When no event lists `t` twice, its group is the plain filter of the shortlist, in shortlist
      order: the catalog's `getEventsByTag` applied to the shortlist. */
  lemma TagGroupIsCatalogQuery(events: seq<Event>, t: string)
    requires forall e :: e in events ==> Count(e.tags, t) <= 1
    ensures TagGroup(events, t) == Catalog.GetEventsByTag(events, t)
  {
    TagGroupIsFilter(events, t);
  }

  lemma {:induction false} TagGroupIsFilter(events: seq<Event>, t: string)
    requires forall e :: e in events ==> Count(e.tags, t) <= 1
    ensures TagGroup(events, t) == Filter(HasTag(t), events)
  {
    if events != [] {
      var front, last := events[..|events| - 1], events[|events| - 1];
      assert events == front + [last];
      TagGroupIsFilter(front, t);
      CountPositive(last.tags, t);
      TagGroupLast(HasTag(t), front, last, Count(last.tags, t));
    }
  }

  /** The step of the lemma above, apart from the tags. */
  lemma TagGroupLast<T(!new)>(p: T -> bool, front: seq<T>, last: T, n: nat)
    requires n <= 1 && (p(last) <==> n > 0)
    ensures Filter(p, front + [last]) == Filter(p, front) + Repeat(last, n)
  {
    FilterConcat(p, front, [last]);
    FilterSingle(p, last);
    if n == 1 {
      assert Repeat(last, n) == [last];
    }
  }

  // ---------------------------------------------------------------- catalog cursor

  /** `nextCard`'s step: forward by one, back to 0 past the end. */
  function Advance(i: nat, n: nat): nat
  {
    if i + 1 >= n then 0 else i + 1
  }

  function AdvanceTimes(i: nat, n: nat, k: nat): nat
  {
    if k == 0 then i else Advance(AdvanceTimes(i, n, k - 1), n)
  }

  /** The cursor walks the catalog cyclically: `k` steps from `i` land on `(i + k) % n`. */
  lemma AdvanceCycles(i: nat, n: nat, k: nat)
    requires i < n
    ensures AdvanceTimes(i, n, k) == (i + k) % n
  {
    var q := AdvanceQuotient(i, n, k);
    ModUnique(i + k, n, q, AdvanceTimes(i, n, k));
  }

  /** `k` steps from `i` pass the end of the catalog `q` times. */
  lemma {:induction false} AdvanceQuotient(i: nat, n: nat, k: nat) returns (q: nat)
    requires i < n
    ensures i + k == q * n + AdvanceTimes(i, n, k) && AdvanceTimes(i, n, k) < n
  {
    if k == 0 {
      q := 0;
    } else {
      var q' := AdvanceQuotient(i, n, k - 1);
      var a := AdvanceTimes(i, n, k - 1);
      if a + 1 < n {
        q := q';
      } else {
        q := q' + 1;
        assert q * n == q' * n + n;
      }
    }
  }

  /** Euclidean remainders are unique. */
  lemma ModUnique(x: int, n: int, q: int, r: int)
    requires n > 0 && 0 <= r < n && x == q * n + r
    ensures x % n == r
  {
    var d, r2 := x / n, x % n;
    assert (q - d) * n == r2 - r;
    if q > d {
      MulAtLeast(q - d, n);
    } else if q < d {
      MulAtLeast(d - q, n);
    }
  }

  lemma {:induction false} MulAtLeast(k: int, n: int)
    requires k >= 1 && n > 0
    ensures k * n >= n
  {
    if k > 1 {
      MulAtLeast(k - 1, n);
      assert k * n == (k - 1) * n + n;
    }
  }

  /** `events.slice(i, i + 3)`: the cards `loadEventCards` puts on the stack. */
  function CardsShown(events: seq<Event>, i: nat): (r: seq<Event>)
    ensures |r| <= CardsInStack
    ensures |r| == if i < |events| then Min(CardsInStack, |events| - i) else 0
    ensures forall k :: 0 <= k < |r| ==> r[k] == events[i + k]
  {
    if i >= |events| then [] else events[i..Min(i + CardsInStack, |events|)]
  }

  // ---------------------------------------------------------------- the manager

  class EventManager {
    /** The catalog, `DataManager.getEvents()`. */
    const events: seq<Event>
    var currentEventIndex: nat
    var shortlist: seq<Event>
    var userActivity: seq<Activity>
    /** Calls to `nextCard` scheduled by `setTimeout` and not yet run. */
    var pendingAdvances: nat

    ghost predicate Valid()
      reads this
    {
      && (currentEventIndex < |events| || currentEventIndex == 0)
      && |userActivity| <= MaxActivity
    }

    constructor (events: seq<Event>)
      ensures Valid()
      ensures this.events == events && currentEventIndex == 0
      ensures shortlist == [] && userActivity == [] && pendingAdvances == 0
    {
      this.events := events;
      currentEventIndex := 0;
      shortlist := [];
      userActivity := [];
      pendingAdvances := 0;
    }

    method AddUserActivity(action: Action, e: Event, now: int)
      requires Valid()
      modifies this`userActivity
      ensures Valid()
      ensures userActivity == PushActivity(old(userActivity), Record(action, e, now))
    {
      var activity := Record(action, e, now);
      userActivity := [activity] + userActivity;
      if |userActivity| > MaxActivity {
        userActivity := userActivity[..MaxActivity];
      }
    }

    method AddToShortlist(e: Event, now: int)
      requires Valid()
      modifies this`shortlist, this`userActivity
      ensures Valid()
      ensures shortlist == Added(old(shortlist), e)
      ensures IdsDistinct(old(shortlist)) ==> IdsDistinct(shortlist)
      ensures userActivity == if HasId(old(shortlist), e.id) then old(userActivity)
                              else PushActivity(old(userActivity), Record(Saved, e, now))
    {
      AddedSpec(shortlist, e);
      if GetEventById(shortlist, e.id).None? {
        shortlist := shortlist + [e];
        AddUserActivity(Saved, e, now);
      }
    }

    method RemoveFromShortlist(eventId: int, now: int)
      requires Valid()
      modifies this`shortlist, this`userActivity
      ensures Valid()
      ensures shortlist == Without(old(shortlist), eventId)
      ensures IdsDistinct(old(shortlist)) ==> IdsDistinct(shortlist)
      ensures userActivity == match GetEventById(old(shortlist), eventId)
                              case Some(e) => PushActivity(old(userActivity), Record(Removed, e, now))
                              case None => old(userActivity)
    {
      WithoutSpec(shortlist, eventId);
      var found := GetEventById(shortlist, eventId);
      if found.Some? {
        AddUserActivity(Removed, found.value, now);
      }
      shortlist := Without(shortlist, eventId);
    }

    /** `setShortlist(s)`: `None` stands for a missing value, which gives the empty shortlist. */
    method SetShortlist(s: Option<seq<Event>>)
      modifies this`shortlist
      ensures shortlist == if s.Some? then s.value else []
    {
      shortlist := if s.Some? then s.value else [];
    }

    method ClearShortlist()
      requires Valid()
      modifies this`shortlist, this`currentEventIndex
      ensures Valid()
      ensures shortlist == [] && currentEventIndex == 0
    {
      shortlist := [];
      currentEventIndex := 0;
    }

    /** `cards` is the stack `loadEventCards` builds for the current cursor: one idle card per
        catalog entry from the cursor on, the top card at stack index 0. */
    ghost predicate Shows(cards: seq<Card>)
      reads this, cards
    {
      && |cards| == |CardsShown(events, currentEventIndex)|
      && forall k :: 0 <= k < |cards| ==>
           && cards[k].event == events[currentEventIndex + k]
           && cards[k].index == k
           && cards[k].Idle()
    }

    /** `nextCard`: the cursor moves one forward, back to 0 past the end, and the stack is rebuilt. */
    method NextCard() returns (cards: seq<Card>)
      requires Valid()
      modifies this`currentEventIndex
      ensures Valid()
      ensures currentEventIndex == Advance(old(currentEventIndex), |events|)
      ensures |events| > 0 ==> currentEventIndex < |events|
      ensures Shows(cards) && forall k :: 0 <= k < |cards| ==> fresh(cards[k])
    {
      currentEventIndex := currentEventIndex + 1;
      if currentEventIndex >= |events| {
        currentEventIndex := 0;
      }
      cards := LoadEventCards();
    }

    /** One scheduled `nextCard` runs. */
    method FireTimer() returns (cards: seq<Card>)
      requires Valid() && pendingAdvances > 0
      modifies this`pendingAdvances, this`currentEventIndex
      ensures Valid()
      ensures pendingAdvances == old(pendingAdvances) - 1
      ensures currentEventIndex == Advance(old(currentEventIndex), |events|)
      ensures Shows(cards) && forall k :: 0 <= k < |cards| ==> fresh(cards[k])
    {
      pendingAdvances := pendingAdvances - 1;
      cards := NextCard();
    }

    /** `loadEventCards`: fresh cards for the catalog entries from the cursor on, top card first. */
    method LoadEventCards() returns (cards: seq<Card>)
      ensures Shows(cards) && forall k :: 0 <= k < |cards| ==> fresh(cards[k])
    {
      var shown := CardsShown(events, currentEventIndex);
      cards := [];
      for k := 0 to |shown|
        invariant |cards| == k
        invariant forall j :: 0 <= j < k ==>
                    fresh(cards[j]) && cards[j].event == shown[j] && cards[j].index == j && cards[j].Idle()
      {
        var card := new Card(shown[k], k);
        cards := cards + [card];
      }
    }

    /** The reject button and the left arrow key: acts only on a top card not yet swiped. */
    method RejectEvent(top: Card?)
      requires Valid()
      modifies this`pendingAdvances, top
      ensures Valid()
      ensures top == null || old(top.mark) != Unmarked ==>
                pendingAdvances == old(pendingAdvances) && (top != null ==> unchanged(top))
      ensures top != null && old(top.mark) == Unmarked ==>
                && top.mark == SwipedLeft && top.dragging == old(top.dragging)
                && top.startX == old(top.startX) && top.currentX == old(top.currentX)
                && pendingAdvances == old(pendingAdvances) + 1
    {
      if top != null && top.mark == Unmarked {
        top.mark := SwipedLeft;
        pendingAdvances := pendingAdvances + 1;
      }
    }

    /** The save button and the right arrow key: shortlists the event under the cursor, once per card. */
    method SaveEvent(top: Card?, now: int)
      requires Valid()
      requires top != null ==> |events| > 0
      modifies this`shortlist, this`userActivity, this`pendingAdvances, top
      ensures Valid()
      ensures top == null || old(top.mark) != Unmarked ==>
                && shortlist == old(shortlist) && userActivity == old(userActivity)
                && pendingAdvances == old(pendingAdvances) && (top != null ==> unchanged(top))
      ensures top != null && old(top.mark) == Unmarked ==>
                && top.mark == SwipedRight && top.dragging == old(top.dragging)
                && top.startX == old(top.startX) && top.currentX == old(top.currentX)
                && shortlist == Added(old(shortlist), events[currentEventIndex])
                && userActivity == (if HasId(old(shortlist), events[currentEventIndex].id) then old(userActivity)
                                    else PushActivity(old(userActivity), Record(Saved, events[currentEventIndex], now)))
                && pendingAdvances == old(pendingAdvances) + 1
    {
      if top != null && top.mark == Unmarked {
        var event := events[currentEventIndex];
        AddToShortlist(event, now);
        top.mark := SwipedRight;
        pendingAdvances := pendingAdvances + 1;
      }
    }

    /** `getUserUniqueTags`: the same computation as the catalog's `getAllTags`, over the shortlist. */
    method GetUserUniqueTags() returns (tags: seq<string>)
      ensures StrictlySorted(tags)
      ensures forall t :: t in tags <==> exists i :: 0 <= i < |shortlist| && t in shortlist[i].tags
    {
      tags := GetAllTags(shortlist);
      forall t ensures t in tags <==> exists i :: 0 <= i < |shortlist| && t in shortlist[i].tags {
        TagsOfMembers(shortlist, t);
      }
    }

    /** `getUserTagStats`: for every tag on the shortlist, its number of occurrences. */
    method GetUserTagStats() returns (stats: map<string, int>)
      ensures stats.Keys == TagsOf(shortlist)
      ensures forall t :: t in stats ==> stats[t] == TagCount(shortlist, t)
    {
      var events := shortlist;
      stats := map[];
      for i := 0 to |events|
        invariant stats.Keys == TagsOf(events[..i])
        invariant forall t :: t in stats ==> stats[t] == TagCount(events[..i], t)
      {
        stats := CountTags(stats, events[i].tags);
        TagViewsStep(events, i);
        forall t | t in stats ensures stats[t] == TagCount(events[..i + 1], t) {
          TagViewsAgree(events[..i], t);
        }
      }
      assert events[..|events|] == events;
    }

    /** `getEventsByTag`: for every tag on the shortlist, the events carrying it, in shortlist order. */
    method GetEventsByTag() returns (groups: map<string, seq<Event>>)
      ensures groups.Keys == TagsOf(shortlist)
      ensures forall t :: t in groups ==> groups[t] == TagGroup(shortlist, t)
    {
      var events := shortlist;
      groups := map[];
      for i := 0 to |events|
        invariant groups.Keys == TagsOf(events[..i])
        invariant forall t :: t in groups ==> groups[t] == TagGroup(events[..i], t)
      {
        groups := GroupByTags(groups, events[i]);
        TagViewsStep(events, i);
        forall t | t in groups ensures groups[t] == TagGroup(events[..i + 1], t) {
          TagViewsAgree(events[..i], t);
        }
      }
      assert events[..|events|] == events;
    }
  }

  /** The inner loop of `getUserTagStats`: one event's tags added to the running counts. */
  method CountTags(stats: map<string, int>, tags: seq<string>) returns (r: map<string, int>)
    ensures r.Keys == stats.Keys + Elements(tags)
    ensures forall t :: t in r ==> r[t] == (if t in stats then stats[t] else 0) + Count(tags, t)
  {
    r := stats;
    for j := 0 to |tags|
      invariant r.Keys == stats.Keys + Elements(tags[..j])
      invariant forall t :: t in r ==> r[t] == (if t in stats then stats[t] else 0) + Count(tags[..j], t)
    {
      CountStep(stats, r, tags, j);
      var tag := tags[j];
      var count := if tag in r then r[tag] else 0;
      r := r[tag := count + 1];
    }
    assert tags[..|tags|] == tags;
  }

  /** The inner loop of `getEventsByTag`: `event` appended to the group of each of its tags, once per
      occurrence. */
  method GroupByTags(groups: map<string, seq<Event>>, event: Event) returns (r: map<string, seq<Event>>)
    ensures r.Keys == groups.Keys + Elements(event.tags)
    ensures forall t :: t in r ==>
              r[t] == (if t in groups then groups[t] else []) + Repeat(event, Count(event.tags, t))
  {
    var tags := event.tags;
    r := groups;
    for j := 0 to |tags|
      invariant r.Keys == groups.Keys + Elements(tags[..j])
      invariant forall t :: t in r ==>
                  r[t] == (if t in groups then groups[t] else []) + Repeat(event, Count(tags[..j], t))
    {
      GroupStep(groups, r, event, tags, j);
      var tag := tags[j];
      var group := if tag in r then r[tag] else [];
      r := r[tag := group + [event]];
    }
    assert tags[..|tags|] == tags;
  }

  /** One iteration of `CountTags`' loop keeps its invariant. */
  lemma CountStep(stats: map<string, int>, r: map<string, int>, tags: seq<string>, j: nat)
    requires j < |tags|
    requires r.Keys == stats.Keys + Elements(tags[..j])
    requires forall t :: t in r ==> r[t] == (if t in stats then stats[t] else 0) + Count(tags[..j], t)
    ensures var tag := tags[j];
            var next := r[tag := (if tag in r then r[tag] else 0) + 1];
            && next.Keys == stats.Keys + Elements(tags[..j + 1])
            && forall t :: t in next ==> next[t] == (if t in stats then stats[t] else 0) + Count(tags[..j + 1], t)
  {
    PrefixStep(tags, j);
    CountPositive(tags[..j], tags[j]);
    var tag := tags[j];
    var next := r[tag := (if tag in r then r[tag] else 0) + 1];
    forall t | t in next
      ensures next[t] == (if t in stats then stats[t] else 0) + Count(tags[..j + 1], t)
    {
      if t == tag {
        if tag !in r {
          assert tag !in tags[..j];
        }
      } else {
        assert next[t] == r[t];
      }
    }
  }

  /** One iteration of `GroupByTags`' loop keeps its invariant. */
  lemma GroupStep<T>(groups: map<string, seq<T>>, r: map<string, seq<T>>, x: T, tags: seq<string>, j: nat)
    requires j < |tags|
    requires r.Keys == groups.Keys + Elements(tags[..j])
    requires forall t :: t in r ==>
               r[t] == (if t in groups then groups[t] else []) + Repeat(x, Count(tags[..j], t))
    ensures var tag := tags[j];
            var next := r[tag := (if tag in r then r[tag] else []) + [x]];
            && next.Keys == groups.Keys + Elements(tags[..j + 1])
            && forall t :: t in next ==>
                 next[t] == (if t in groups then groups[t] else []) + Repeat(x, Count(tags[..j + 1], t))
  {
    PrefixStep(tags, j);
    CountPositive(tags[..j], tags[j]);
    var tag := tags[j];
    var group := if tag in r then r[tag] else [];
    var prefix := if tag in groups then groups[tag] else [];
    var k := Count(tags[..j], tag);
    GroupStepTag(group, prefix, x, k, tag in r);
    var next := r[tag := group + [x]];
    forall t | t in next
      ensures next[t] == (if t in groups then groups[t] else []) + Repeat(x, Count(tags[..j + 1], t))
    {
      if t != tag {
        assert next[t] == r[t];
      }
    }
  }

  /** The key of `GroupStep` that gains an entry: an absent key had no group and no occurrence. */
  lemma GroupStepTag<T>(group: seq<T>, prefix: seq<T>, x: T, k: nat, present: bool)
    requires present ==> group == prefix + Repeat(x, k)
    requires !present ==> group == [] && prefix == [] && k == 0
    ensures group + [x] == prefix + Repeat(x, k + 1)
  {
    RepeatOneMore(prefix, x, k);
  }

  lemma RepeatOneMore<T>(prefix: seq<T>, x: T, k: nat)
    ensures prefix + Repeat(x, k) + [x] == prefix + Repeat(x, k + 1)
  {
  }

  /** One more tag of a list, for the loops above. */
  lemma PrefixStep(tags: seq<string>, j: nat)
    requires j < |tags|
    ensures Elements(tags[..j + 1]) == Elements(tags[..j]) + {tags[j]}
    ensures forall t :: Count(tags[..j + 1], t) == Count(tags[..j], t) + (if tags[j] == t then 1 else 0)
  {
    assert tags[..j + 1] == tags[..j] + [tags[j]];
    assert tags[..j + 1][..j] == tags[..j];
  }

  /** One more event of the shortlist, for the loops above. */
  lemma TagViewsStep(events: seq<Event>, i: nat)
    requires i < |events|
    ensures TagsOf(events[..i + 1]) == TagsOf(events[..i]) + Elements(events[i].tags)
    ensures forall t :: TagCount(events[..i + 1], t) == TagCount(events[..i], t) + Count(events[i].tags, t)
    ensures forall t :: TagGroup(events[..i + 1], t) ==
                        TagGroup(events[..i], t) + Repeat(events[i], Count(events[i].tags, t))
  {
    assert events[..i + 1][..i] == events[..i];
  }

  // ---------------------------------------------------------------- the drag gesture

  /** The `swiped-left` / `swiped-right` class a decided card carries. */
  datatype Mark = Unmarked | SwipedLeft | SwipedRight

  /** One card on the stack with the state of the drag closures `addCardInteraction` gives it. */
  class Card {
    const event: Event
    /** Position in the stack; only the top card (0) reacts to a press. */
    const index: nat
    var dragging: bool
    var startX: int
    var currentX: int
    var mark: Mark

    /** A card as `createEventCard` leaves it. */
    ghost predicate Idle()
      reads this
    {
      !dragging && startX == 0 && currentX == 0 && mark == Unmarked
    }

    /** A swiped card is not being dragged. */
    ghost predicate Settled()
      reads this
    {
      mark != Unmarked ==> !dragging
    }

    constructor (event: Event, index: nat)
      ensures this.event == event && this.index == index && Idle()
    {
      this.event := event;
      this.index := index;
      dragging := false;
      startX := 0;
      currentX := 0;
      mark := Unmarked;
    }

    /** `handleStart` as written: any press on the top card starts a drag, even on a card already
        swiped, and the previous `currentX` is kept. */
    method HandleStartAsWritten(clientX: int)
      modifies this
      ensures index != 0 ==> unchanged(this)
      ensures index == 0 ==> dragging && startX == clientX && currentX == old(currentX) && mark == old(mark)
    {
      if index != 0 {
        return;
      }
      dragging := true;
      startX := clientX;
    }

    /** `handleStart` with the guard the save and reject buttons have: a swiped card takes no new drag.
        The previous `currentX` is still kept. */
    method HandleStart(clientX: int)
      modifies this
      ensures index != 0 || old(mark) != Unmarked ==> unchanged(this)
      ensures index == 0 && old(mark) == Unmarked ==>
                dragging && startX == clientX && currentX == old(currentX) && mark == Unmarked
      ensures old(Settled()) ==> Settled()
    {
      if index != 0 || mark != Unmarked {
        return;
      }
      dragging := true;
      startX := clientX;
    }

    method HandleMove(clientX: int)
      modifies this
      ensures !old(dragging) ==> unchanged(this)
      ensures old(dragging) ==>
                dragging && startX == old(startX) && currentX == clientX - startX && mark == old(mark)
    {
      if !dragging {
        return;
      }
      currentX := clientX - startX;
    }

    /** `handleEnd` as written: past the threshold to the right the card's event is shortlisted; past
        it either way the card is marked and a `nextCard` is scheduled, even when the card was already
        swiped; inside it nothing happens. */
    method HandleEndAsWritten(m: EventManager, now: int)
      requires m.Valid()
      modifies this, m`shortlist, m`userActivity, m`pendingAdvances
      ensures m.Valid()
      ensures !dragging && startX == old(startX) && currentX == old(currentX)
      ensures !old(dragging) ==> unchanged(this) && unchanged(m)
      ensures old(dragging) && currentX > SwipeThreshold ==>
                && mark == SwipedRight
                && m.shortlist == Added(old(m.shortlist), event)
                && m.userActivity == (if HasId(old(m.shortlist), event.id) then old(m.userActivity)
                                      else PushActivity(old(m.userActivity), Record(Saved, event, now)))
                && m.pendingAdvances == old(m.pendingAdvances) + 1
      ensures old(dragging) && currentX < -SwipeThreshold ==>
                && mark == SwipedLeft
                && m.shortlist == old(m.shortlist) && m.userActivity == old(m.userActivity)
                && m.pendingAdvances == old(m.pendingAdvances) + 1
      ensures old(dragging) && -SwipeThreshold <= currentX <= SwipeThreshold ==>
                mark == old(mark) && unchanged(m)
    {
      if !dragging {
        return;
      }
      dragging := false;
      if currentX > SwipeThreshold || currentX < -SwipeThreshold {
        if currentX > 0 {
          m.AddToShortlist(event, now);
          mark := SwipedRight;
        } else {
          mark := SwipedLeft;
        }
        m.pendingAdvances := m.pendingAdvances + 1;
      }
    }

    /** `handleEnd` with the guard the save and reject buttons have: the drag always ends, but only a
        card not yet swiped is decided. */
    method HandleEnd(m: EventManager, now: int)
      requires m.Valid()
      modifies this, m`shortlist, m`userActivity, m`pendingAdvances
      ensures m.Valid() && Settled()
      ensures !dragging && startX == old(startX) && currentX == old(currentX)
      ensures !old(dragging) ==> unchanged(this) && unchanged(m)
      ensures old(dragging) && old(mark) == Unmarked && currentX > SwipeThreshold ==>
                && mark == SwipedRight
                && m.shortlist == Added(old(m.shortlist), event)
                && m.userActivity == (if HasId(old(m.shortlist), event.id) then old(m.userActivity)
                                      else PushActivity(old(m.userActivity), Record(Saved, event, now)))
                && m.pendingAdvances == old(m.pendingAdvances) + 1
      ensures old(dragging) && old(mark) == Unmarked && currentX < -SwipeThreshold ==>
                && mark == SwipedLeft
                && m.shortlist == old(m.shortlist) && m.userActivity == old(m.userActivity)
                && m.pendingAdvances == old(m.pendingAdvances) + 1
      ensures old(dragging) && (old(mark) != Unmarked || -SwipeThreshold <= currentX <= SwipeThreshold) ==>
                mark == old(mark) && unchanged(m)
    {
      if !dragging {
        return;
      }
      dragging := false;
      if mark == Unmarked && (currentX > SwipeThreshold || currentX < -SwipeThreshold) {
        if currentX > 0 {
          m.AddToShortlist(event, now);
          mark := SwipedRight;
        } else {
          mark := SwipedLeft;
        }
        m.pendingAdvances := m.pendingAdvances + 1;
      }
    }
  }

  /** What reaches the top card: a mouse or touch event, or the save or reject control (a button or
      an arrow key). */
  datatype Input = Press(x: int) | Drag(x: int) | Release | SaveControl | RejectControl

  /** Feeds input to the top card through the guarded handlers: whatever arrives, in whatever order,
      the card shortlists at most its own event and schedules at most one advance, and none once
      swiped. */
  method Replay(card: Card, m: EventManager, inputs: seq<Input>, now: int)
    requires m.Valid() && |m.events| > 0
    requires card.event == m.events[m.currentEventIndex]
    modifies card, m`shortlist, m`userActivity, m`pendingAdvances
    ensures m.Valid()
    ensures m.pendingAdvances == old(m.pendingAdvances) + (if old(card.mark) == Unmarked && card.mark != Unmarked then 1 else 0)
    ensures old(card.mark) != Unmarked ==> card.mark == old(card.mark) && unchanged(m)
    ensures m.shortlist == old(m.shortlist) || m.shortlist == Added(old(m.shortlist), card.event)
  {
    for i := 0 to |inputs|
      invariant m.Valid()
      invariant m.pendingAdvances == old(m.pendingAdvances) + (if old(card.mark) == Unmarked && card.mark != Unmarked then 1 else 0)
      invariant old(card.mark) != Unmarked ==> card.mark == old(card.mark) && unchanged(m)
      invariant old(card.mark) == Unmarked && card.mark == Unmarked ==> unchanged(m)
      invariant m.shortlist == old(m.shortlist) || m.shortlist == Added(old(m.shortlist), card.event)
    {
      AddedTwice(old(m.shortlist), card.event);
      match inputs[i]
      case Press(x) => card.HandleStart(x);
      case Drag(x) => card.HandleMove(x);
      case Release => card.HandleEnd(m, now);
      case SaveControl => m.SaveEvent(card, now);
      case RejectControl => m.RejectEvent(card);
    }
  }

  lemma AddedTwice(s: seq<Event>, e: Event)
    ensures Added(Added(s, e), e) == Added(s, e)
  {
    AddedSpec(s, e);
  }

  // ---------------------------------------------------------------- deciding a card twice

  /** The unguarded handlers (see Findings): the top card is swiped right, then pressed and released
      again before its scheduled `nextCard` has run. The release sees the stale `currentX` and
      schedules a second advance: the second entry is on top only until the second timer fires. */
  method RetouchAfterSwipeAsWritten(catalog: seq<Event>) returns (advances: nat, between: Event, cursor: nat, saved: seq<Event>)
    requires |catalog| >= 3
    ensures advances == 2
    ensures between == catalog[1] && cursor == 2
    ensures saved == [catalog[0]]
  {
    var m := new EventManager(catalog);
    var cards := m.LoadEventCards();
    var top := cards[0];
    top.HandleStartAsWritten(0);
    top.HandleMove(150);
    top.HandleEndAsWritten(m, 1000);
    assert m.shortlist == [catalog[0]] && m.shortlist[0].id == catalog[0].id;
    top.HandleStartAsWritten(0);
    top.HandleEndAsWritten(m, 1200);
    advances := m.pendingAdvances;
    saved := m.shortlist;
    between, cursor := RunTwoTimers(m);
  }

  /** Two scheduled advances from the first entry: the second entry is on top between them, the
      third after them. */
  method RunTwoTimers(m: EventManager) returns (between: Event, cursor: nat)
    requires m.Valid() && |m.events| >= 3 && m.currentEventIndex == 0 && m.pendingAdvances == 2
    modifies m`pendingAdvances, m`currentEventIndex
    ensures between == m.events[1] && cursor == 2
  {
    var cards := m.FireTimer();
    assert m.currentEventIndex == 1 && |cards| > 0;
    between := cards[0].event;
    cards := m.FireTimer();
    cursor := m.currentEventIndex;
  }

  /** The save control pressed while the top card is being dragged past the threshold: as written,
      the release decides the card a second time and schedules a second advance. */
  method SaveDuringDragAsWritten(catalog: seq<Event>) returns (advances: nat, saved: seq<Event>)
    requires |catalog| >= 1
    ensures advances == 2
    ensures saved == [catalog[0]]
  {
    var m := new EventManager(catalog);
    var cards := m.LoadEventCards();
    var top := cards[0];
    top.HandleStartAsWritten(0);
    top.HandleMove(150);
    m.SaveEvent(top, 1000);
    assert m.shortlist == [catalog[0]] && m.shortlist[0].id == catalog[0].id;
    top.HandleEndAsWritten(m, 1200);
    advances := m.pendingAdvances;
    saved := m.shortlist;
  }

  /** The retouch inputs through the guarded handlers: one advance, to the second entry. */
  method RetouchAfterSwipe(catalog: seq<Event>) returns (advances: nat, cursor: nat, saved: seq<Event>)
    requires |catalog| >= 2
    ensures advances == 1 && cursor == 1
    ensures saved == [catalog[0]]
  {
    var m := new EventManager(catalog);
    var cards := m.LoadEventCards();
    var top := cards[0];
    top.HandleStart(0);
    top.HandleMove(150);
    top.HandleEnd(m, 1000);
    assert m.shortlist == [catalog[0]] && m.pendingAdvances == 1;
    top.HandleStart(0);
    top.HandleEnd(m, 1200);
    advances := m.pendingAdvances;
    saved := m.shortlist;
    cards := m.FireTimer();
    cursor := m.currentEventIndex;
  }

  /** The save control during a drag through the guarded release: one advance. */
  method SaveDuringDrag(catalog: seq<Event>) returns (advances: nat, saved: seq<Event>)
    requires |catalog| >= 1
    ensures advances == 1
    ensures saved == [catalog[0]]
  {
    var m := new EventManager(catalog);
    var cards := m.LoadEventCards();
    var top := cards[0];
    top.HandleStart(0);
    top.HandleMove(150);
    m.SaveEvent(top, 1000);
    assert m.shortlist == [catalog[0]] && m.pendingAdvances == 1;
    top.HandleEnd(m, 1200);
    advances := m.pendingAdvances;
    saved := m.shortlist;
  }

  /** A rejected card is replaced once its timer fires, and the save control then acts on the next
      entry. */
  method RejectThenSave(catalog: seq<Event>) returns (saved: seq<Event>)
    requires |catalog| >= 2
    ensures saved == [catalog[1]]
  {
    var m := new EventManager(catalog);
    var cards := m.LoadEventCards();
    m.RejectEvent(cards[0]);
    cards := m.FireTimer();
    assert m.currentEventIndex == 1 && |cards| > 0;
    var top := cards[0];
    assert top.event == catalog[1] && top.mark == Unmarked;
    m.SaveEvent(top, 1000);
    saved := m.shortlist;
  }

  // ---------------------------------------------------------------- activity times

  /** The buckets `formatActivityTime` renders: "Just now", "n minute(s) ago", "n hour(s) ago",
      "n day(s) ago". */
  datatype Elapsed = JustNow | MinutesAgo(n: nat) | HoursAgo(n: nat) | DaysAgo(n: nat)

  const MillisPerMinute: nat := 60000
  const MinutesPerHour: nat := 60
  const MinutesPerDay: nat := 1440

  /** `Math.floor((now - activityTime) / 60000)`; a timestamp in the future gives a negative count. */
  function MinutesBetween(nowMs: int, thenMs: int): (d: int)
    ensures d * MillisPerMinute <= nowMs - thenMs < (d + 1) * MillisPerMinute
  {
    (nowMs - thenMs) / MillisPerMinute
  }

  /** `formatActivityTime`: the bucket and the whole number of units shown for a minute difference. */
  function FormatActivityTime(nowMs: int, thenMs: int): (r: Elapsed)
    ensures var d := MinutesBetween(nowMs, thenMs);
            && (r == JustNow <==> d < 1)
            && (r.MinutesAgo? <==> 1 <= d < MinutesPerHour)
            && (r.HoursAgo? <==> MinutesPerHour <= d < MinutesPerDay)
            && (r.DaysAgo? <==> MinutesPerDay <= d)
            && (r.MinutesAgo? ==> r.n == d)
            && (r.HoursAgo? ==> 1 <= r.n < 24 && r.n * MinutesPerHour <= d < (r.n + 1) * MinutesPerHour)
            && (r.DaysAgo? ==> 1 <= r.n && r.n * MinutesPerDay <= d < (r.n + 1) * MinutesPerDay)
  {
    var d := MinutesBetween(nowMs, thenMs);
    if d < 1 then JustNow
    else if d < MinutesPerHour then MinutesAgo(d)
    else if d < MinutesPerDay then HoursAgo(d / MinutesPerHour)
    else DaysAgo(d / MinutesPerDay)
  }

  /** The unit word, plural exactly when the count is above one. */
  function Unit(r: Elapsed): (w: string)
    requires !r.JustNow?
    ensures |w| >= 3 && ((r.n > 1) <==> w[|w| - 1] == 's')
  {
    var base := match r
      case MinutesAgo(_) => "minute"
      case HoursAgo(_) => "hour"
      case DaysAgo(_) => "day";
    if r.n > 1 then base + "s" else base
  }

  /** How far back a bucket lies, so that buckets can be compared. */
  function Rank(r: Elapsed): nat
  {
    match r
    case JustNow => 0
    case MinutesAgo(n) => n
    case HoursAgo(n) => n * MinutesPerHour
    case DaysAgo(n) => n * MinutesPerDay
  }

  /** An older activity never reads as more recent than a newer one. */
  lemma FormatActivityTimeMonotone(nowMs: int, older: int, newer: int)
    requires older <= newer
    ensures Rank(FormatActivityTime(nowMs, newer)) <= Rank(FormatActivityTime(nowMs, older))
  {
    var a, b := MinutesBetween(nowMs, newer), MinutesBetween(nowMs, older);
    assert a <= b;
  }
}
