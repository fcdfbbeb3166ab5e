/** The wishlist: a store of managed books, a cached array of them, and the toggle that adds or deletes.
    A notification post is a direct call. */
module Wishlist {
  import opened Wrappers

  /** What a book holds. */
  datatype Record = Record(
    coverID: int,
    coverData: string,
    title: string,
    subtitle: string,
    authorName: string,
    firstPublishYear: int,
    publisher: string,
    editionCount: int,
    isInWishlist: bool)

  /** The copy the manager stores, which leaves the subtitle at its default. */
  function Copied(b: Record): Record {
    b.(subtitle := "")
  }

  /** A stored book agrees with the one it was copied from, save for the subtitle, which is not copied. */
  ghost predicate CopyOf(r: Record, b: Record) {
    && r.coverID == b.coverID
    && r.coverData == b.coverData
    && r.title == b.title
    && r.subtitle == ""
    && r.authorName == b.authorName
    && r.firstPublishYear == b.firstPublishYear
    && r.publisher == b.publisher
    && r.editionCount == b.editionCount
    && r.isInWishlist == b.isInWishlist
  }

  function Flipped(b: Record): Record {
    b.(isInWishlist := !b.isInWishlist)
  }

  /** What an update for the book makes of the store, books being known by their cover. */
  function Updated(stored: map<int, Record>, b: Record): map<int, Record> {
    if !b.isInWishlist then stored - {b.coverID}
    else if b.coverID in stored then stored
    else stored[b.coverID := Copied(b)]
  }

  /** An update sees only whether the book's own cover is stored, not what is stored under it, when it deletes. */
  lemma OnlyThisCover(a: map<int, Record>, b: map<int, Record>, book: Record)
    requires a.Keys == b.Keys && (forall id :: id in a && id != book.coverID ==> a[id] == b[id])
    requires a == b || !book.isInWishlist
    ensures Updated(a, book) == Updated(b, book)
  {
    if !book.isInWishlist {
      assert (a - {book.coverID}).Keys == (b - {book.coverID}).Keys;
      forall id | id in a - {book.coverID}
        ensures (a - {book.coverID})[id] == (b - {book.coverID})[id]
      {
        assert a[id] == b[id];
      }
    }
  }

  class Book {
    var coverID: int
    var coverData: string
    var title: string
    var subtitle: string
    var authorName: string
    var firstPublishYear: int
    var publisher: string
    var editionCount: int
    var isInWishlist: bool

    constructor (r: Record)
      ensures View() == r
    {
      coverID, coverData, title, subtitle := r.coverID, r.coverData, r.title, r.subtitle;
      authorName, firstPublishYear, publisher := r.authorName, r.firstPublishYear, r.publisher;
      editionCount, isInWishlist := r.editionCount, r.isInWishlist;
    }

    function View(): Record
      reads this
    {
      Record(coverID, coverData, title, subtitle, authorName, firstPublishYear, publisher, editionCount, isInWishlist)
    }
  }

  /** The persistent store: the managed books. */
  class Store {
    var books: set<Book>

    constructor (books: set<Book>)
      ensures this.books == books
    {
      this.books := books;
    }

    ghost predicate UniqueCovers()
      reads this, books
    {
      forall a, b :: a in books && b in books && a.coverID == b.coverID ==> a == b
    }

    ghost function Contents(): map<int, Record>
      requires UniqueCovers()
      reads this, books
    {
      map b | b in books :: b.coverID := b.View()
    }

    /** A cover has contents exactly when a stored book has it. */
    lemma StoredCover(id: int)
      requires UniqueCovers()
      ensures id in Contents() <==> exists b :: b in books && b.coverID == id
    {
    }

    /** `realm.add` */
    method Add(book: Book)
      requires UniqueCovers() && book !in books && forall b :: b in books ==> b.coverID != book.coverID
      modifies this
      ensures books == old(books) + {book} && UniqueCovers()
      ensures Contents() == old(Contents())[book.coverID := book.View()]
    {
      books := books + {book};
    }

    /** A new book with another's contents, added. */
    method AddCopyOf(book: Book)
      requires UniqueCovers() && forall b :: b in books ==> b.coverID != book.coverID
      modifies this
      ensures UniqueCovers() && Contents() == old(Contents())[book.coverID := Copied(book.View())]
      ensures forall b :: b in books ==> b in old(books) || (fresh(b) && b.isInWishlist == book.isInWishlist)
    {
      var realmBook := new Book(Copied(book.View()));
      Add(realmBook);
    }

    /** Deleting the books the cover query matches. */
    method DeleteCover(id: int)
      requires UniqueCovers()
      modifies this
      ensures books == (set b | b in old(books) && b.coverID != id) && UniqueCovers()
      ensures Contents() == old(Contents()) - {id}
    {
      books := set b | b in books && b.coverID != id;
    }

    /** `realm.objects(Book.self)` as an array: each stored book once, in some order. */
    method AllObjects() returns (r: seq<Book>)
      ensures Enumerates(r, books)
    {
      r := [];
      var rest := books;
      while rest != {}
        invariant rest <= books && Enumerates(r, books - rest)
        decreases rest
      {
        var b :| b in rest;
        r := r + [b];
        rest := rest - {b};
      }
      assert books - rest == books;
    }
  }

  ghost predicate Enumerates(r: seq<Book>, books: set<Book>) {
    && (forall b :: b in r ==> b in books)
    && (forall b :: b in books ==> b in r)
    && (forall i, j :: 0 <= i < j < |r| ==> r[i] != r[j])
  }

  class WishlistManager {
    var wishList: seq<Book>
    const realm: Store

    /** Unique covers, every stored book flagged, and the cache holding exactly the stored books. */
    ghost predicate Valid()
      reads this, realm, realm.books
    {
      && realm.UniqueCovers()
      && (forall b :: b in realm.books ==> b.isInWishlist)
      && Enumerates(wishList, realm.books)
    }

    /** `init` */
    constructor (realm: Store)
      requires realm.UniqueCovers() && forall b :: b in realm.books ==> b.isInWishlist
      ensures Valid() && this.realm == realm
    {
      this.realm := realm;
      new;
      wishList := realm.AllObjects();
    }

    /** Store a copy of the book unless its cover is stored already. */
    method AddCopy(book: Book)
      requires Valid() && book.isInWishlist
      modifies this, realm
      ensures Valid() && forall b :: b in realm.books ==> b in old(realm.books) || fresh(b)
      ensures realm.Contents() == Updated(old(realm.Contents()), book.View())
    {
      realm.StoredCover(book.coverID);
      if forall b | b in realm.books :: b.coverID != book.coverID {
        realm.AddCopyOf(book);
        wishList := realm.AllObjects();
      }
    }

    /** `addOrDeleteBookFromWishlist`.  The book may be a stored one whose flag was just cleared. */
    method AddOrDelete(book: Book)
      requires realm.UniqueCovers() && Enumerates(wishList, realm.books)
      requires forall b :: b in realm.books && b != book ==> b.isInWishlist
      requires book in realm.books ==> !book.isInWishlist
      modifies this, realm
      ensures Valid()
      ensures forall b :: b in realm.books ==> b in old(realm.books) || fresh(b)
      ensures realm.Contents() == Updated(old(realm.Contents()), book.View())
      ensures book.isInWishlist && book.coverID !in old(realm.Contents()) ==>
                book.coverID in realm.Contents() && CopyOf(realm.Contents()[book.coverID], book.View())
    {
      if book.isInWishlist {
        AddCopy(book);
      } else {
        realm.DeleteCover(book.coverID);
        wishList := realm.AllObjects();
      }
    }

    /** `notifyWishlistOfUpdate`: flip the flag of a search result or of a stored book, then update. */
    method Toggle(book: Book)
      requires Valid()
      modifies this, realm, book`isInWishlist
      ensures Valid()
      ensures book.View() == Flipped(old(book.View()))
      ensures forall b :: b in realm.books ==> b in old(realm.books) || fresh(b)
      ensures realm.Contents() == Updated(old(realm.Contents()), Flipped(old(book.View())))
      ensures book.isInWishlist && book.coverID !in old(realm.Contents()) ==>
                book.coverID in realm.Contents() && CopyOf(realm.Contents()[book.coverID], book.View())
    {
      ghost var before := realm.Contents();
      book.isInWishlist := !book.isInWishlist;
      OnlyThisCover(before, realm.Contents(), book.View());
      AddOrDelete(book);
    }

    /** `getWishlistCount` and `getBook(atIndex:)`. */
    method GetWishlistCount() returns (n: nat)
      requires Valid()
      ensures n == |realm.books|
    {
      n := |wishList|;
      EnumerationSize(wishList, realm.books);
    }

    method GetBook(index: nat) returns (b: Book)
      requires Valid() && index < |wishList|
      ensures b == wishList[index] && b in realm.books && b.isInWishlist
    {
      b := wishList[index];
    }
  }

  lemma {:induction false} EnumerationSize(r: seq<Book>, books: set<Book>)
    requires Enumerates(r, books)
    ensures |r| == |books|
    decreases |r|
  {
    if r == [] {
      assert books == {};
    } else {
      var last := r[|r| - 1];
      EnumerationSize(r[..|r| - 1], books - {last});
    }
  }

  /** Toggling a search result twice, its flag agreeing with the store, restores the stored covers and
      leaves every other stored book as it was. */
  lemma ToggleTwice(stored: map<int, Record>, b: Record)
    requires b.isInWishlist <==> b.coverID in stored
    ensures var again := Updated(Updated(stored, Flipped(b)), Flipped(Flipped(b)));
            && again.Keys == stored.Keys
            && (forall id :: id in stored && id != b.coverID ==> again[id] == stored[id])
            && (b.coverID !in stored ==> again == stored)
            && (b.coverID in stored ==> again[b.coverID] == Copied(b))
  {
  }

  /** `ToggleTwice` on the manager: a search result pressed twice. */
  method ToggleAndBack(m: WishlistManager, book: Book)
    requires m.Valid() && book !in m.realm.books
    requires book.isInWishlist <==> book.coverID in m.realm.Contents()
    modifies m, m.realm, book`isInWishlist
    ensures m.Valid() && book.View() == old(book.View())
    ensures var before, after := old(m.realm.Contents()), m.realm.Contents();
            && after.Keys == before.Keys
            && (forall id :: id in before && id != book.coverID ==> after[id] == before[id])
            && (book.coverID !in before ==> after == before)
            && (book.coverID in before ==> after[book.coverID] == Copied(book.View()))
  {
    ghost var before, view := m.realm.Contents(), book.View();
    m.Toggle(book);
    m.Toggle(book);
    ToggleTwice(before, view);
  }

  /** What happens to the application: it is started again, a search finishes, a search result is toggled, a
      listed book, known by its cover, is toggled. */
  datatype Event =
    | Launch
    | SearchDone(found: seq<Record>)
    | ToggleResult(k: nat)
    | ToggleListed(id: int)

  /** What the user could see: the books stored, and so listed, and the search results shown. */
  datatype Screen = Screen(stored: map<int, Record>, shown: seq<Record>)

  /** A finished search flags the results whose cover is stored. */
  function Flagged(found: seq<Record>, stored: map<int, Record>): (r: seq<Record>)
    ensures |r| == |found|
    ensures forall k :: 0 <= k < |r| ==>
              r[k] == if found[k].coverID in stored then found[k].(isInWishlist := true) else found[k]
  {
    seq(|found|, k requires 0 <= k < |found| =>
      if found[k].coverID in stored then found[k].(isInWishlist := true) else found[k])
  }

  /** What an event makes of the screen; an event for a book that is not there does not happen. */
  function AfterEvent(s: Screen, e: Event): Screen {
    match e
    case Launch => s.(shown := [])
    case SearchDone(found) => s.(shown := Flagged(found, s.stored))
    case ToggleResult(k) =>
      if k >= |s.shown| then s
      else Screen(Updated(s.stored, Flipped(s.shown[k])), s.shown[k := Flipped(s.shown[k])])
    case ToggleListed(id) => s.(stored := s.stored - {id})
  }

  function After(s: Screen, events: seq<Event>): Screen {
    if events == [] then s else AfterEvent(After(s, events[..|events| - 1]), events[|events| - 1])
  }

  /** The search results: their records, each in a book of its own outside the store. */
  ghost predicate Shows(results: seq<Book>, records: seq<Record>, realm: Store)
    reads realm, results
  {
    && |results| == |records|
    && (forall k :: 0 <= k < |results| ==> results[k].View() == records[k])
    && (forall b :: b in results ==> b !in realm.books)
    && (forall i, j :: 0 <= i < j < |results| ==> results[i] != results[j])
  }

  /** A finished search: a new book for each record, flagged where its cover is stored. */
  method ShowResults(realm: Store, found: seq<Record>) returns (results: seq<Book>)
    requires realm.UniqueCovers()
    ensures forall b :: b in results ==> fresh(b)
    ensures Shows(results, Flagged(found, realm.Contents()), realm)
  {
    results := [];
    for i := 0 to |found|
      invariant |results| == i && forall b :: b in results ==> fresh(b)
      invariant forall j, k :: 0 <= j < k < i ==> results[j] != results[k]
      invariant forall k :: 0 <= k < i ==> results[k].View() == Flagged(found, realm.Contents())[k]
    {
      realm.StoredCover(found[i].coverID);
      var stored := exists b | b in realm.books :: b.coverID == found[i].coverID;
      var book := new Book(if stored then found[i].(isInWishlist := true) else found[i]);
      results := results + [book];
    }
  }

  /** The user toggles a search result. */
  method PressResult(m: WishlistManager, results: seq<Book>, k: nat, ghost s: Screen)
    requires m.Valid() && m.realm.Contents() == s.stored && Shows(results, s.shown, m.realm)
    modifies m, m.realm, set b | b in results
    ensures m.Valid() && forall b :: b in m.realm.books ==> b in old(m.realm.books) || fresh(b)
    ensures m.realm.Contents() == AfterEvent(s, ToggleResult(k)).stored
    ensures Shows(results, AfterEvent(s, ToggleResult(k)).shown, m.realm)
  {
    if k < |results| {
      var book := results[k];
      assert book in results;
      m.Toggle(book);
      assert forall j :: 0 <= j < |results| && j != k ==> results[j] != book && results[j] in results;
    }
  }

  /** The user toggles a listed book, which removes it. */
  method PressListed(m: WishlistManager, id: int)
    requires m.Valid()
    modifies m, m.realm, m.realm.books
    ensures m.Valid() && forall b :: b in m.realm.books ==> b in old(m.realm.books) || fresh(b)
    ensures m.realm.Contents() == old(m.realm.Contents()) - {id}
  {
    var k := 0;
    while k < |m.wishList| && m.wishList[k].coverID != id
      invariant k <= |m.wishList| && forall j :: 0 <= j < k ==> m.wishList[j].coverID != id
    {
      k := k + 1;
    }
    m.realm.StoredCover(id);
    if k < |m.wishList| {
      m.Toggle(m.wishList[k]);
    }
  }

  /** One event. */
  method Happen(m: WishlistManager, results: seq<Book>, e: Event, ghost s: Screen)
    returns (m': WishlistManager, results': seq<Book>)
    requires m.Valid() && m.realm.Contents() == s.stored && Shows(results, s.shown, m.realm)
    modifies m, m.realm, m.realm.books, set b | b in results
    ensures m'.Valid() && m'.realm == m.realm && (m' == m || fresh(m'))
    ensures forall b :: b in m.realm.books ==> b in old(m.realm.books) || fresh(b)
    ensures results' == results || forall b :: b in results' ==> fresh(b)
    ensures m.realm.Contents() == AfterEvent(s, e).stored && Shows(results', AfterEvent(s, e).shown, m.realm)
  {
    m', results' := m, results;
    match e
    case Launch =>
      m' := new WishlistManager(m.realm);
      results' := [];
    case SearchDone(found) =>
      results' := ShowResults(m.realm, found);
    case ToggleResult(k) =>
      PressResult(m, results, k, s);
    case ToggleListed(id) =>
      PressListed(m, id);
  }

  /** Any run of the application, carried out on the manager from a store with unique covers and every flag set:
      covers stay unique, stored books stay flagged, the list is the store, and the store and the results are
      what the events make of them. */
  method Run(realm: Store, events: seq<Event>) returns (m: WishlistManager, results: seq<Book>)
    requires realm.UniqueCovers() && forall b :: b in realm.books ==> b.isInWishlist
    modifies realm, realm.books
    ensures m.Valid() && m.realm == realm
    ensures var s := After(Screen(old(realm.Contents()), []), events);
            realm.Contents() == s.stored && Shows(results, s.shown, realm)
  {
    ghost var start := Screen(realm.Contents(), []);
    m := new WishlistManager(realm);
    results := [];
    for i := 0 to |events|
      invariant m.Valid() && m.realm == realm && fresh(m)
      invariant forall b :: b in results ==> fresh(b)
      invariant forall b :: b in realm.books ==> b in old(realm.books) || fresh(b)
      invariant realm.Contents() == After(start, events[..i]).stored
      invariant Shows(results, After(start, events[..i]).shown, realm)
    {
      AfterOne(start, events, i);
      m, results := Happen(m, results, events[i], After(start, events[..i]));
    }
    assert events[..|events|] == events;
  }

  lemma AfterOne(s: Screen, events: seq<Event>, i: nat)
    requires i < |events|
    ensures After(s, events[..i + 1]) == AfterEvent(After(s, events[..i]), events[i])
  {
    assert events[..i + 1][..i] == events[..i];
  }

  /** Books are stored under their own cover with the flag set. */
  predicate StoreOk(stored: map<int, Record>) {
    forall id :: id in stored ==> stored[id].coverID == id && stored[id].isInWishlist
  }

  /** The book an event toggles, as it is afterwards. */
  function Toggled(s: Screen, e: Event): Option<Record> {
    match e
    case ToggleResult(k) => if k < |s.shown| then Some(Flipped(s.shown[k])) else None
    case ToggleListed(id) => if id in s.stored then Some(Flipped(s.stored[id])) else None
    case _ => None
  }

  /** The last book with the cover that a run toggles. */
  function LastToggled(s: Screen, events: seq<Event>, id: int): Option<Record> {
    if events == [] then None
    else
      var n := |events| - 1;
      var last := Toggled(After(s, events[..n]), events[n]);
      if last.Some? && last.value.coverID == id then last else LastToggled(s, events[..n], id)
  }

  /** After any run a cover is stored exactly when the last toggle of a book with that cover left the flag set, or
      there was none and it was stored at the start; a cover never toggled keeps its book. */
  lemma {:induction false} StoredByLastToggle(s: Screen, events: seq<Event>, id: int)
    requires StoreOk(s.stored)
    ensures StoreOk(After(s, events).stored)
    ensures id in After(s, events).stored <==>
            match LastToggled(s, events, id)
            case None => id in s.stored
            case Some(b) => b.isInWishlist
    ensures LastToggled(s, events, id).None? && id in s.stored ==> After(s, events).stored[id] == s.stored[id]
    decreases |events|
  {
    if events != [] {
      StoredByLastToggle(s, events[..|events| - 1], id);
    }
  }

  /** The search result an event adds to the store: one not flagged, whose cover is not stored. */
  function Added(s: Screen, e: Event): Option<Record> {
    if e.ToggleResult? && e.k < |s.shown| && !s.shown[e.k].isInWishlist && s.shown[e.k].coverID !in s.stored
    then Some(s.shown[e.k].(isInWishlist := true))
    else None
  }

  /** The last search result with the cover that a run adds. */
  function LastAdded(s: Screen, events: seq<Event>, id: int): Option<Record> {
    if events == [] then None
    else
      var n := |events| - 1;
      var last := Added(After(s, events[..n]), events[n]);
      if last.Some? && last.value.coverID == id then last else LastAdded(s, events[..n], id)
  }

  /** After any run every stored book was there at the start, or agrees field by field with the search result whose
      toggle last added its cover. */
  lemma {:induction false} StoredFromResults(s: Screen, events: seq<Event>, id: int)
    requires id in After(s, events).stored
    ensures match LastAdded(s, events, id)
            case None => id in s.stored && After(s, events).stored[id] == s.stored[id]
            case Some(b) => CopyOf(After(s, events).stored[id], b)
    decreases |events|
  {
    if events != [] {
      var n := |events| - 1;
      if id in After(s, events[..n]).stored {
        StoredFromResults(s, events[..n], id);
      }
    }
  }
}
