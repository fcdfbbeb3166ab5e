/** The search pipeline: keep the complete documents, build books from them, download every cover
    concurrently, then flag the books that are on the wishlist and report. */
module BookSearch {
  import opened Wrappers
  import opened Wishlist

  /** A document of the search response; a missing key is `None`. */
  datatype Doc = Doc(
    coverI: Option<int>,
    title: Option<string>,
    authorName: Option<seq<string>>,
    firstPublishYear: Option<int>,
    publisher: Option<seq<string>>,
    editionCount: Option<int>,
    subtitle: Option<string>)

  predicate Complete(d: Doc) {
    d.coverI.Some? && d.title.Some? && d.authorName.Some? && d.firstPublishYear.Some? && d.publisher.Some? &&
    d.editionCount.Some?
  }

  function Joined(names: seq<string>): string {
    if names == [] then "" else names[0] + Joined(names[1..])
  }

  /** Several names show as "Multiple". */
  function Shown(names: seq<string>): string {
    if |names| > 1 then "Multiple" else Joined(names)
  }

  /** The book built from a complete document: no cover yet, not flagged. */
  function Built(d: Doc): Record
    requires Complete(d)
  {
    Record(d.coverI.value, "", d.title.value, if d.subtitle.Some? then d.subtitle.value else "",
           Shown(d.authorName.value), d.firstPublishYear.value, Shown(d.publisher.value), d.editionCount.value, false)
  }

  /** The positions of the complete documents, in order. */
  function CompleteAt(docs: seq<Doc>): (r: seq<nat>)
    ensures forall k :: 0 <= k < |r| ==> r[k] < |docs| && Complete(docs[r[k]])
    ensures forall i, j :: 0 <= i < j < |r| ==> r[i] < r[j]
    ensures forall k :: 0 <= k < |docs| ==>
              (k in r <==>
                 && docs[k].coverI.Some?
                 && docs[k].title.Some?
                 && docs[k].authorName.Some?
                 && docs[k].firstPublishYear.Some?
                 && docs[k].publisher.Some?
                 && docs[k].editionCount.Some?)
  {
    if docs == [] then []
    else
      var n := |docs| - 1;
      var earlier := CompleteAt(docs[..n]);
      if Complete(docs[n]) then earlier + [n] else earlier
  }

  /** The complete documents, in order. */
  ghost function Clean(docs: seq<Doc>): (r: seq<Doc>)
    ensures |r| == |CompleteAt(docs)|
    ensures forall k :: 0 <= k < |r| ==> r[k] == docs[CompleteAt(docs)[k]]
  {
    var at := CompleteAt(docs);
    seq(|at|, k requires 0 <= k < |at| => docs[at[k]])
  }

  /** One more document is kept exactly when it is complete. */
  lemma CleanStep(docs: seq<Doc>, i: nat)
    requires i < |docs|
    ensures Clean(docs[..i + 1]) == Clean(docs[..i]) + if Complete(docs[i]) then [docs[i]] else []
  {
    assert docs[..i + 1][..i] == docs[..i];
  }

  /** The books a response asks for: one for each complete document, in order. */
  function Books(docs: seq<Doc>): (r: seq<Record>)
    ensures |r| == |CompleteAt(docs)|
    ensures forall k :: 0 <= k < |r| ==> r[k] == Built(docs[CompleteAt(docs)[k]])
  {
    var at := CompleteAt(docs);
    seq(|at|, k requires 0 <= k < |at| => Built(docs[at[k]]))
  }

  /** The results and the dispatch group of the search in flight. */
  class BookSearchManager {
    var bookResults: seq<Record>
    var pending: int
    var reported: bool
    ghost var arrived: map<nat, string>
    ghost var lost: set<nat>
    ghost var flaggedBy: set<int>

    constructor ()
      ensures bookResults == []
    {
      bookResults, pending, reported := [], 0, false;
      arrived, lost, flaggedBy := map[], {}, {};
    }

    ghost function InFlight(): Search
      reads this
    {
      Search(bookResults, arrived, lost, pending, reported, flaggedBy)
    }

    /** `requesBookCovers`: enter the group once per book. */
    method RequestBookCovers()
      modifies this
      ensures InFlight() == Start(old(bookResults), {}).search
    {
      pending, reported, arrived, lost, flaggedBy := 0, false, map[], {}, {};
      for i := 0 to |bookResults|
        invariant pending == i
        invariant InFlight() == Start(old(bookResults), {}).search.(pending := i)
      {
        pending := pending + 1;
      }
    }

    /** A download's completion handler, with or without data. */
    method CoverCompleted(i: nat, data: Option<string>, ghost stored: set<int>)
      requires Enabled(State(InFlight(), stored), if data.Some? then Arrived(i, data.value) else Lost(i))
      modifies this
      ensures InFlight() ==
              Next(old(State(InFlight(), stored)), if data.Some? then Arrived(i, data.value) else Lost(i)).search
    {
      match data
      case Some(image) =>
        bookResults := bookResults[i := bookResults[i].(coverData := image)];
        arrived := arrived[i := image];
        pending := pending - 1;
      case None =>
        lost := lost + {i};
    }

    /** The group's notification: flag the books on the wishlist and report. */
    method CoversDone(stored: set<int>)
      requires Enabled(State(InFlight(), stored), Notify)
      modifies this
      ensures InFlight() == Next(old(State(InFlight(), stored)), Notify).search
    {
      DetermineWishlistBooks(stored);
      reported, flaggedBy := true, stored;
    }

    /** The filter and build loops of `requesBookInfo`; no documents at all is the early failure. */
    method RequestBookInfo(docs: seq<Doc>) returns (ok: bool)
      modifies this
      ensures ok <==> docs != []
      ensures bookResults == Books(docs)
    {
      bookResults := [];
      if docs == [] {
        return false;
      }
      var clean: seq<Doc> := [];
      for i := 0 to |docs|
        invariant clean == Clean(docs[..i])
        invariant bookResults == []
      {
        CleanStep(docs, i);
        if Complete(docs[i]) {
          clean := clean + [docs[i]];
        }
      }
      assert docs[..|docs|] == docs;
      for i := 0 to |clean|
        invariant |bookResults| == i
        invariant forall k :: 0 <= k < i ==> bookResults[k] == Built(clean[k])
      {
        bookResults := bookResults + [Built(clean[i])];
      }
      ok := true;
    }

    /** `determineWishlistBooks` */
    method DetermineWishlistBooks(stored: set<int>)
      modifies this`bookResults
      ensures bookResults == Determined(old(bookResults), stored)
    {
      for i := 0 to |bookResults|
        invariant |bookResults| == |old(bookResults)|
        invariant forall k :: 0 <= k < |bookResults| ==>
                    bookResults[k] == if k < i then Determined(old(bookResults), stored)[k] else old(bookResults)[k]
      {
        if bookResults[i].coverID in stored {
          bookResults := bookResults[i := bookResults[i].(isInWishlist := true)];
        }
      }
    }
  }

  /** Where a search stands: the covers delivered and lost so far, the dispatch group's count, and once
      it has reported, the stored covers its flags were set from. */
  datatype Search = Search(
    results: seq<Record>,
    arrived: map<nat, string>,
    lost: set<nat>,
    pending: int,
    reported: bool,
    flaggedBy: set<int>)

  datatype Event =
    | Arrived(i: nat, data: string)
    | Lost(i: nat)
    | Wishlisted(stored: set<int>)
    | Notify

  /** The search together with the covers on the wishlist, which may change while it runs. */
  datatype State = State(search: Search, stored: set<int>)

  /** The group is entered once per result. */
  function Start(results: seq<Record>, stored: set<int>): State {
    State(Search(results, map[], {}, |results|, false, {}), stored)
  }

  /** `determineWishlistBooks`: flags are set where the cover is stored, and never cleared. */
  function Determined(results: seq<Record>, stored: set<int>): seq<Record> {
    seq(|results|, i requires 0 <= i < |results| =>
      if results[i].coverID in stored then results[i].(isInWishlist := true) else results[i])
  }

  /** Each download completes at most once; the notification fires once, when the group is empty. */
  predicate Enabled(s: State, e: Event) {
    match e
    case Arrived(i, _) => i < |s.search.results| && i !in s.search.arrived && i !in s.search.lost
    case Lost(i) => i < |s.search.results| && i !in s.search.arrived && i !in s.search.lost
    case Wishlisted(_) => true
    case Notify => s.search.pending == 0 && !s.search.reported
  }

  /** A completion with data stores the cover and leaves the group; one without data does neither. */
  function Next(s: State, e: Event): State
    requires Enabled(s, e)
  {
    var q := s.search;
    match e
    case Arrived(i, data) =>
      s.(search := q.(results := q.results[i := q.results[i].(coverData := data)],
                      arrived := q.arrived[i := data],
                      pending := q.pending - 1))
    case Lost(i) => s.(search := q.(lost := q.lost + {i}))
    case Wishlisted(stored) => s.(stored := stored)
    case Notify =>
      s.(search := q.(results := Determined(q.results, s.stored), reported := true, flaggedBy := s.stored))
  }

  ghost predicate Runs(s: State, events: seq<Event>)
    decreases |events|
  {
    events == [] || (Enabled(s, events[0]) && Runs(Next(s, events[0]), events[1..]))
  }

  ghost function Final(s: State, events: seq<Event>): State
    requires Runs(s, events)
    decreases |events|
  {
    if events == [] then s else Final(Next(s, events[0]), events[1..])
  }

  /** The positions of `n` results. */
  ghost function Positions(n: nat): (r: set<nat>)
    ensures forall i: nat :: i in r <==> i < n
  {
    if n == 0 then {} else Positions(n - 1) + {n - 1}
  }

  lemma {:induction false} PositionsSize(n: nat)
    ensures |Positions(n)| == n
  {
    if n > 0 {
      PositionsSize(n - 1);
    }
  }

  /** As many positions as there are, are all of them. */
  lemma AllPositions(a: set<nat>, n: nat)
    requires a <= Positions(n)
    ensures |a| == n <==> a == Positions(n)
  {
    PositionsSize(n);
    var missing := Positions(n) - a;
    assert |Positions(n)| == |a| + |missing| by {
      assert Positions(n) == a + missing;
    }
  }

  /** What a result looks like once its cover is in and, after the report, its flag is set. */
  function Expected(b: Record, i: nat, q: Search): Record {
    var covered := if i in q.arrived then b.(coverData := q.arrived[i]) else b;
    if q.reported && b.coverID in q.flaggedBy then covered.(isInWishlist := true) else covered
  }

  /** The search invariant: the group counts the covers still missing, a result differs from its document's
      book only by its own cover and flag, and a report came after every cover. */
  ghost predicate SearchOk(books: seq<Record>, q: Search) {
    && |q.results| == |books|
    && q.arrived.Keys <= Positions(|books|) && q.lost <= Positions(|books|) && q.arrived.Keys !! q.lost
    && q.pending == |books| - |q.arrived.Keys|
    && (forall i :: 0 <= i < |books| ==> q.results[i] == Expected(books[i], i, q))
    && (q.reported ==> q.arrived.Keys == Positions(|books|))
  }

  /** The group is empty exactly when every cover has arrived. */
  lemma EmptyGroup(books: seq<Record>, q: Search)
    requires SearchOk(books, q)
    ensures q.pending == 0 <==> q.arrived.Keys == Positions(|books|)
  {
    AllPositions(q.arrived.Keys, |books|);
  }

  lemma NextOk(books: seq<Record>, s: State, e: Event)
    requires SearchOk(books, s.search) && Enabled(s, e)
    ensures SearchOk(books, Next(s, e).search)
  {
    EmptyGroup(books, s.search);
    if e.Arrived? {
      assert Next(s, e).search.arrived.Keys == s.search.arrived.Keys + {e.i};
    }
  }

  lemma {:induction false} RunOk(books: seq<Record>, s: State, events: seq<Event>)
    requires SearchOk(books, s.search) && Runs(s, events)
    ensures SearchOk(books, Final(s, events).search)
    decreases |events|
  {
    if events != [] {
      NextOk(books, s, events[0]);
      RunOk(books, Next(s, events[0]), events[1..]);
    }
  }

  /** Under every order of completions and whatever happens to the wishlist meanwhile: a reported search
      lost no cover, every result carries the cover delivered for it, and its flag is true exactly when
      its cover is stored at the time of the report; nothing else about it changed. */
  lemma ReportedIsComplete(books: seq<Record>, stored: set<int>, events: seq<Event>)
    requires forall i :: 0 <= i < |books| ==> !books[i].isInWishlist
    requires Runs(Start(books, stored), events) && Final(Start(books, stored), events).search.reported
    ensures var q := Final(Start(books, stored), events).search;
            && q.lost == {}
            && |q.results| == |books|
            && forall i :: 0 <= i < |books| ==>
                 && i in q.arrived
                 && q.results[i] ==
                    books[i].(coverData := q.arrived[i], isInWishlist := books[i].coverID in q.flaggedBy)
  {
    RunOk(books, Start(books, stored), events);
  }

  /** The covers stored when the run reports, `stored` being those at its start. */
  ghost function ReportStored(stored: set<int>, events: seq<Event>): set<int>
    decreases |events|
  {
    if events == [] || events[0].Notify? then stored
    else ReportStored(if events[0].Wishlisted? then events[0].stored else stored, events[1..])
  }

  /** The flags are set from the covers stored then. */
  lemma {:induction false} FlaggedWhenReported(s: State, events: seq<Event>)
    requires Runs(s, events) && Final(s, events).search.reported
    ensures Final(s, events).search.flaggedBy ==
            if s.search.reported then s.search.flaggedBy else ReportStored(s.stored, events)
    decreases |events|
  {
    if events != [] {
      FlaggedWhenReported(Next(s, events[0]), events[1..]);
    }
  }

  /** A cover is the one a download delivered. */
  lemma {:induction false} ArrivedInRun(s: State, events: seq<Event>, i: nat)
    requires Runs(s, events) && i in Final(s, events).search.arrived
    ensures var data := Final(s, events).search.arrived[i];
            Arrived(i, data) in events || (i in s.search.arrived && s.search.arrived[i] == data)
    decreases |events|
  {
    if events != [] {
      ArrivedInRun(Next(s, events[0]), events[1..], i);
      assert forall e :: e in events[1..] ==> e in events;
    }
  }

  /** Several names are shown as one word, a single one as it is, none as nothing. */
  ghost predicate Names(shown: string, names: seq<string>) {
    shown == if |names| > 1 then "Multiple" else if |names| == 1 then names[0] else ""
  }

  /** The book carries the document. */
  ghost predicate Carries(r: Record, d: Doc) {
    && d.coverI == Some(r.coverID)
    && d.title == Some(r.title)
    && r.subtitle == (if d.subtitle.Some? then d.subtitle.value else "")
    && d.authorName.Some? && Names(r.authorName, d.authorName.value)
    && d.firstPublishYear == Some(r.firstPublishYear)
    && d.publisher.Some? && Names(r.publisher, d.publisher.value)
    && d.editionCount == Some(r.editionCount)
  }

  lemma ShownNames(names: seq<string>)
    ensures Names(Shown(names), names)
  {
    if |names| == 1 {
      assert Joined(names) == names[0] + Joined([]);
    }
  }

  lemma BuiltCarries(d: Doc)
    requires Complete(d)
    ensures Carries(Built(d), d)
  {
    ShownNames(d.authorName.value);
    ShownNames(d.publisher.value);
  }

  /** From the response to the report: the results carry the complete documents, in order, each with the cover
      downloaded for it and a flag that says whether that cover was stored at the report. */
  lemma SearchReportsDocuments(docs: seq<Doc>, stored: set<int>, events: seq<Event>)
    requires Runs(Start(Books(docs), stored), events) && Final(Start(Books(docs), stored), events).search.reported
    ensures var results, at := Final(Start(Books(docs), stored), events).search.results, CompleteAt(docs);
            && |results| == |at|
            && forall k :: 0 <= k < |at| ==>
                 && Carries(results[k], docs[at[k]])
                 && Arrived(k, results[k].coverData) in events
                 && (results[k].isInWishlist <==> results[k].coverID in ReportStored(stored, events))
  {
    var q, at := Final(Start(Books(docs), stored), events).search, CompleteAt(docs);
    ReportedIsComplete(Books(docs), stored, events);
    FlaggedWhenReported(Start(Books(docs), stored), events);
    forall k | 0 <= k < |at|
      ensures Carries(q.results[k], docs[at[k]]) && Arrived(k, q.results[k].coverData) in events
    {
      BuiltCarries(docs[at[k]]);
      ArrivedInRun(Start(Books(docs), stored), events, k);
    }
  }

  /** The report is due exactly when every cover has arrived: a lost cover holds it back for ever, and no
      order of arrivals does. */
  lemma ReportIsDue(books: seq<Record>, stored: set<int>, events: seq<Event>)
    requires Runs(Start(books, stored), events)
    ensures var s := Final(Start(books, stored), events);
            Enabled(s, Notify) <==> !s.search.reported && s.search.arrived.Keys == Positions(|books|)
    ensures var s := Final(Start(books, stored), events);
            s.search.lost != {} ==> !s.search.reported && !Enabled(s, Notify)
  {
    var s := Final(Start(books, stored), events);
    RunOk(books, Start(books, stored), events);
    EmptyGroup(books, s.search);
  }
}
