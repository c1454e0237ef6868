/** The event catalog and its queries (js/data.js). Every query takes the catalog it searches as
    `catalog`; the application always passes the fixed list `MockEvents`. */
module Catalog {
  import opened Seqs
  import opened JsStrings

  /** What `Array.prototype.find` returns: an element, or `undefined`. */
  datatype Option<T> = None | Some(value: T)

  /** One catalog entry. `date` and `time` are kept as the text the catalog holds. */
  datatype Event = Event(
    id: int,
    title: string,
    date: string,
    time: string,
    location: string,
    category: string,
    price: string,
    description: string,
    emoji: string,
    tags: seq<string>)

  predicate HasId(events: seq<Event>, id: int)
  {
    exists i :: 0 <= i < |events| && events[i].id == id
  }

  /** No two entries share an id. */
  predicate IdsDistinct(events: seq<Event>)
  {
    forall i, j :: 0 <= i < j < |events| ==> events[i].id != events[j].id
  }

  /** `getEventById`: the first entry whose id is `id`, if any. */
  function GetEventById(catalog: seq<Event>, id: int): (r: Option<Event>)
    ensures r.Some? <==> HasId(catalog, id)
    ensures r.Some? ==> exists i :: 0 <= i < |catalog| && catalog[i] == r.value && r.value.id == id
                                    && forall j :: 0 <= j < i ==> catalog[j].id != id
  {
    if catalog == [] then None
    else if catalog[0].id == id then Some(catalog[0])
    else
      var r := GetEventById(catalog[1..], id);
      assert HasId(catalog, id) ==> HasId(catalog[1..], id) by {
        if HasId(catalog, id) {
          var i :| 0 <= i < |catalog| && catalog[i].id == id;
          assert catalog[1..][i - 1].id == id;
        }
      }
      if r.Some? then
        var i :| 0 <= i < |catalog[1..]| && catalog[1..][i] == r.value && r.value.id == id
                 && forall j :: 0 <= j < i ==> catalog[1..][j].id != id;
        assert catalog[i + 1] == r.value;
        r
      else r
  }

  /** With unique ids, looking an entry up by its id finds that very entry. */
  lemma GetEventByIdFindsTheEntry(catalog: seq<Event>, k: nat)
    requires IdsDistinct(catalog)
    requires k < |catalog|
    ensures GetEventById(catalog, catalog[k].id) == Some(catalog[k])
  {
    var r := GetEventById(catalog, catalog[k].id);
    var i :| 0 <= i < |catalog| && catalog[i] == r.value && r.value.id == catalog[k].id
             && forall j :: 0 <= j < i ==> catalog[j].id != catalog[k].id;
    assert i == k;
  }

  /** `getEventsByCategory`. */
  function GetEventsByCategory(catalog: seq<Event>, category: string): (r: seq<Event>)
    ensures Subseq(r, catalog)
    ensures forall e :: e in r <==> e in catalog && e.category == category
  {
    FilterIsSubseq((e: Event) => e.category == category, catalog);
    Filter((e: Event) => e.category == category, catalog)
  }

  /** The test `getEventsByTag` filters with. */
  function HasTag(tag: string): Event -> bool
  {
    (e: Event) => tag in e.tags
  }

  /** `getEventsByTag`. */
  function GetEventsByTag(catalog: seq<Event>, tag: string): (r: seq<Event>)
    ensures Subseq(r, catalog)
    ensures forall e :: e in r <==> e in catalog && tag in e.tags
  {
    FilterIsSubseq(HasTag(tag), catalog);
    Filter(HasTag(tag), catalog)
  }

  /** Every tag carried by some entry of `events`. */
  ghost function TagsOf(events: seq<Event>): set<string>
  {
    if events == [] then {} else TagsOf(events[..|events| - 1]) + Elements(events[|events| - 1].tags)
  }

  /** The strings of `s`, as a set. */
  ghost function Elements(s: seq<string>): (r: set<string>)
    ensures forall x :: x in r <==> x in s
  {
    set i | 0 <= i < |s| :: s[i]
  }

  lemma {:induction false} TagsOfMembers(events: seq<Event>, t: string)
    ensures t in TagsOf(events) <==> exists i :: 0 <= i < |events| && t in events[i].tags
  {
    if events != [] {
      var front := events[..|events| - 1];
      TagsOfMembers(front, t);
      if exists i :: 0 <= i < |events| && t in events[i].tags {
        var i :| 0 <= i < |events| && t in events[i].tags;
        if i < |front| {
          assert front[i] == events[i];
        }
      }
      forall i | 0 <= i < |front| && t in front[i].tags ensures t in events[i].tags {
        assert front[i] == events[i];
      }
    }
  }

  /** `getAllTags`: every tag of the catalog, once each, in ascending order. */
  method GetAllTags(catalog: seq<Event>) returns (tags: seq<string>)
    ensures StrictlySorted(tags)
    ensures forall t :: t in tags <==> t in TagsOf(catalog)
  {
    var allTags: set<string> := {};
    for i := 0 to |catalog|
      invariant allTags == TagsOf(catalog[..i])
    {
      var eventTags := catalog[i].tags;
      for j := 0 to |eventTags|
        invariant allTags == TagsOf(catalog[..i]) + Elements(eventTags[..j])
      {
        assert eventTags[..j + 1] == eventTags[..j] + [eventTags[j]];
        allTags := allTags + {eventTags[j]};
      }
      assert eventTags[..|eventTags|] == eventTags;
      assert catalog[..i + 1][..i] == catalog[..i];
    }
    assert catalog[..|catalog|] == catalog;
    tags := SortedFromSet(allTags);
  }

  /** `searchEvents`' test of one entry against the already lower-cased query. */
  predicate MatchesQuery(e: Event, lowerQuery: string)
  {
    || Includes(Lower(e.title), lowerQuery)
    || Includes(Lower(e.description), lowerQuery)
    || Includes(Lower(e.location), lowerQuery)
    || Includes(Lower(e.category), lowerQuery)
    || exists t :: t in e.tags && Includes(Lower(t), lowerQuery)
  }

  /** `searchEvents`: the entries that mention the query in any text field or tag, ignoring case. */
  function SearchEvents(catalog: seq<Event>, query: string): (r: seq<Event>)
    ensures Subseq(r, catalog)
    ensures forall e :: e in r <==> e in catalog && MatchesQuery(e, Lower(query))
  {
    var q := Lower(query);
    FilterIsSubseq((e: Event) => MatchesQuery(e, q), catalog);
    Filter((e: Event) => MatchesQuery(e, q), catalog)
  }

  /** An entry matches when the folded query occurs, at some offset, in a folded field or tag. */
  lemma MatchesQueryIsSubstring(e: Event, query: string)
    ensures MatchesQuery(e, Lower(query)) <==>
      var q := Lower(query);
      || (exists i :: OccursAt(Lower(e.title), q, i))
      || (exists i :: OccursAt(Lower(e.description), q, i))
      || (exists i :: OccursAt(Lower(e.location), q, i))
      || (exists i :: OccursAt(Lower(e.category), q, i))
      || (exists t, i :: t in e.tags && OccursAt(Lower(t), q, i))
  {
    var q := Lower(query);
    IncludesIsSubstring(Lower(e.title), q);
    IncludesIsSubstring(Lower(e.description), q);
    IncludesIsSubstring(Lower(e.location), q);
    IncludesIsSubstring(Lower(e.category), q);
    forall t | t in e.tags {
      IncludesIsSubstring(Lower(t), q);
    }
  }

  /** The empty query matches everything, so it returns the whole catalog. */
  lemma SearchEmptyQuery(catalog: seq<Event>)
    ensures SearchEvents(catalog, "") == catalog
  {
    var q := Lower("");
    forall i | 0 <= i < |catalog| ensures MatchesQuery(catalog[i], q) {
      IncludesIsSubstring(Lower(catalog[i].title), q);
    }
    FilterAll((e: Event) => MatchesQuery(e, q), catalog);
  }

  /** The search ignores the case of its query. */
  lemma SearchIgnoresQueryCase(catalog: seq<Event>, query: string)
    ensures SearchEvents(catalog, Lower(query)) == SearchEvents(catalog, query)
  {
    LowerIdempotent(query);
  }

  /** `mockEvents`: the catalog the application ships with. */
  const MockEvents: seq<Event> := [
    Event(1,
      "Summer Music Festival 2024",
      "2024-07-15", "18:00", "Central Park, NYC", "Music", "$75",
      "Join us for an unforgettable evening of live music featuring top artists from around the world.",
      "\U{1F3B5}",
      ["Music", "Entertainment", "Live Performance"]),
    Event(2,
      "Tech Innovation Summit",
      "2024-08-20", "09:00", "Convention Center, SF", "Technology", "$150",
      "Explore the latest trends in AI, blockchain, and emerging technologies with industry leaders.",
      "\U{1F4BB}",
      ["AIML", "Technology", "Innovation", "Networking"]),
    Event(3,
      "Food & Wine Tasting",
      "2024-06-30", "17:00", "Napa Valley, CA", "Food", "$95",
      "Savor exquisite wines paired with gourmet cuisine from renowned chefs.",
      "\U{1F377}",
      ["Food", "Wine", "Culinary", "Luxury"]),
    Event(4,
      "Stand-up Comedy Night",
      "2024-07-08", "20:00", "Laugh Factory, LA", "Comedy", "$35",
      "Get ready to laugh with the best comedians in town for a night of pure entertainment.",
      "\U{1F602}",
      ["Comedy", "Entertainment", "Nightlife"]),
    Event(5,
      "Art Gallery Opening",
      "2024-07-22", "19:00", "Modern Art Museum", "Art", "Free",
      "Experience contemporary art from emerging artists in an exclusive gallery opening.",
      "\U{1F3A8}",
      ["Art", "Culture", "Exhibition", "Free Event"]),
    Event(6,
      "Yoga & Wellness Retreat",
      "2024-08-05", "07:00", "Malibu Beach, CA", "Wellness", "$120",
      "Rejuvenate your mind and body with morning yoga sessions by the ocean.",
      "\U{1F9D8}",
      ["Wellness", "Yoga", "Health", "Beach"]),
    Event(7,
      "Startup Pitch Competition",
      "2024-07-28", "14:00", "Silicon Valley Hub", "Business", "$50",
      "Watch innovative startups pitch their ideas to top venture capitalists.",
      "\U{1F680}",
      ["Business", "Startup", "Pitching", "Investment", "DSA"]),
    Event(8,
      "Jazz Night Under Stars",
      "2024-08-12", "19:30", "Rooftop Lounge, Chicago", "Music", "$60",
      "Enjoy smooth jazz performances with stunning city views on our rooftop venue.",
      "\U{1F3BA}",
      ["Music", "Jazz", "Rooftop", "Nightlife"]),
    Event(9,
      "AI & Machine Learning Workshop",
      "2024-09-15", "10:00", "Tech Institute, Boston", "Technology", "$200",
      "Hands-on workshop covering the fundamentals of AI and machine learning algorithms.",
      "\U{1F916}",
      ["AIML", "Technology", "Workshop", "Learning", "Hands-on"]),
    Event(10,
      "Cybersecurity Conference 2024",
      "2024-10-20", "09:00", "Security Center, DC", "Technology", "$180",
      "Learn about the latest cybersecurity threats and defense strategies from industry experts.",
      "\U{1F512}",
      ["CyberSecurity", "Technology", "Security", "Conference", "Networking"]),
    Event(11,
      "Web Development Bootcamp",
      "2024-11-05", "09:00", "Coding Academy, Austin", "Technology", "$300",
      "Intensive 3-day bootcamp covering modern web development technologies and frameworks.",
      "\U{1F310}",
      ["WebDevelopment", "Technology", "Bootcamp", "Learning", "Coding"]),
    Event(12,
      "Data Structures & Algorithms Masterclass",
      "2024-12-10", "14:00", "Computer Science Lab, Stanford", "Education", "$150",
      "Master DSA concepts with practical examples and coding challenges.",
      "\U{1F4CA}",
      ["DSA", "Education", "Computer Science", "Coding", "Algorithms"])
  ]

  /** The shipped catalog's ids are 1 to 12, so looking up by id is unambiguous on it. */
  lemma MockEventsIdsDistinct()
    ensures |MockEvents| == 12
    ensures forall i :: 0 <= i < |MockEvents| ==> MockEvents[i].id == i + 1
    ensures IdsDistinct(MockEvents)
  {
  }
}
