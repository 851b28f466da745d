/**
 The library bookkeeping of `detector/smelly_code.py`: the
 `LibraryManagementSystem` tables and the two search functions.
 Dates are whole day numbers, so `(return_date - due_date).days` is a
 subtraction.
 */
module Library {
  import opened Wrappers
  import opened Seqs
  import opened Text

  /** One `books` entry. The same record is listed in `book_categories`, so the
      model keeps that index as positions into `books`. */
  datatype Book = Book(title: string, author: string, isbn: string, category: string,
                       copies: int, available: int)

  /** One `members` entry (`registration_date` is left out). */
  datatype Member = Member(id: int, name: string, email: string, phone: string, address: string,
                           memberType: string, borrowedBooks: seq<string>)

  /** One `transactions` entry. */
  datatype Transaction = Transaction(memberId: int, isbn: string, checkoutDate: int, dueDate: int,
                                     staffName: string, location: string, returned: bool)

  /** One `overdue_books` entry of the fee report. */
  datatype OverdueBook = OverdueBook(isbn: string, days: int, fee: nat)

  /** The dictionary the overdue processing returns (without `notifications_sent`). */
  datatype FeeReport = FeeReport(memberId: int, totalFee: nat, overdueBooks: seq<OverdueBook>)

  /** A notification, by the facts its message states. */
  datatype Notification =
    | OverdueNotice(memberName: string, isbn: string, fee: nat)
    | UrgentNotice(memberName: string, days: int)

  /** The `system_stats` key the overdue processing counts under. */
  const OverdueCount: string := "overdue_count"

  // ---------------------------------------------------------------- lookups

  /** The first position whose element satisfies `p` (a `for ... break` search). */
  function FirstMatch<T>(s: seq<T>, p: T -> bool): (r: Option<nat>)
    ensures r.Some? ==> r.value < |s| && p(s[r.value]) && forall j :: 0 <= j < r.value ==> !p(s[j])
    ensures r.None? ==> forall j :: 0 <= j < |s| ==> !p(s[j])
  {
    if s == [] then None
    else if p(s[0]) then Some(0)
    else match FirstMatch(s[1..], p)
      case None => None
      case Some(k) => Some(k + 1)
  }

  /** The book `process_book_checkout` lends: the first with that isbn and a copy left. */
  function BookToLend(books: seq<Book>, isbn: string): Option<nat> {
    FirstMatch(books, (b: Book) => b.isbn == isbn && b.available > 0)
  }

  /** The member the `for m in self.members` searches find. */
  function MemberIndex(members: seq<Member>, id: int): Option<nat> {
    FirstMatch(members, (m: Member) => m.id == id)
  }

  // --------------------------------------------------------------- category index

  function Categories(books: seq<Book>): (r: seq<string>)
    ensures |r| == |books| && forall i :: 0 <= i < |books| ==> r[i] == books[i].category
  {
    seq(|books|, i requires 0 <= i < |books| => books[i].category)
  }

  /** The positions holding category `c`, in increasing order: what
      `book_categories[c]` lists after the books were added one by one. */
  function CategoryIndices(cats: seq<string>, c: string): seq<nat> {
    if cats == [] then []
    else CategoryIndices(cats[..|cats| - 1], c) + (if cats[|cats| - 1] == c then [|cats| - 1] else [])
  }

  /** A category list holds exactly the positions of that category, each once and
      in increasing order. */
  lemma {:induction false} CategoryIndicesExact(cats: seq<string>, c: string)
    ensures forall i :: i in CategoryIndices(cats, c) <==> 0 <= i < |cats| && cats[i] == c
    ensures forall a, b :: 0 <= a < b < |CategoryIndices(cats, c)| ==>
      CategoryIndices(cats, c)[a] < CategoryIndices(cats, c)[b]
  {
    if cats != [] {
      var init := cats[..|cats| - 1];
      CategoryIndicesExact(init, c);
      var r0 := CategoryIndices(init, c);
      assert forall a :: 0 <= a < |r0| ==> r0[a] in r0 && r0[a] < |init|;
    }
  }

  // --------------------------------------------------------------- loans

  /** The isbns of the transactions made by member `id`, in order. */
  function Borrowed(ts: seq<Transaction>, id: int): seq<string> {
    FlatMap(ts, (t: Transaction) => if t.memberId == id then [t.isbn] else [])
  }

  lemma BorrowedAppend(ts: seq<Transaction>, t: Transaction, id: int)
    ensures Borrowed(ts + [t], id) == Borrowed(ts, id) + (if t.memberId == id then [t.isbn] else [])
  {
    assert (ts + [t])[..|ts|] == ts;
  }

  /** The copies of a book currently lent out. */
  function Lent(b: Book): nat {
    if b.available <= b.copies then b.copies - b.available else 0
  }

  // --------------------------------------------------------------- fees

  /** The fee for a book `days` days overdue. */
  function OverdueFee(days: int): (fee: nat)
    requires days > 0
    ensures fee > 0
  {
    if days <= 7 then days * 5
    else if days <= 14 then 35 + (days - 7) * 10
    else if days <= 30 then 105 + (days - 14) * 15
    else 345 + (days - 30) * 20
  }

  /** What the `day`-th overdue day costs: 5 in the first week, 10 in the second,
      15 up to day 30, then 20. */
  function DailyRate(day: int): nat {
    if day <= 7 then 5 else if day <= 14 then 10 else if day <= 30 then 15 else 20
  }

  /** The fee accrued day by day: a reference definition of the schedule. */
  function AccruedFee(days: nat): nat {
    if days == 0 then 0 else AccruedFee(days - 1) + DailyRate(days)
  }

  /** The schedule is the day-by-day accrual: no jump at the breakpoints 7, 14
      and 30, where it stands at 35, 105 and 345. */
  lemma {:induction false} FeeAccrues(days: nat)
    requires days > 0
    ensures OverdueFee(days) == AccruedFee(days)
    ensures days == 7 ==> OverdueFee(days) == 35
    ensures days == 14 ==> OverdueFee(days) == 105
    ensures days == 30 ==> OverdueFee(days) == 345
  {
    if days > 1 {
      FeeAccrues(days - 1);
    }
  }

  /** Every extra day costs more: the fee is positive and strictly increasing. */
  lemma {:induction false} FeeIncreasing(a: nat, b: nat)
    requires 0 < a < b
    ensures 0 < OverdueFee(a) < OverdueFee(b)
    decreases b
  {
    FeeAccrues(a);
    FeeAccrues(b);
    AccruedIncreasing(a, b);
  }

  lemma {:induction false} AccruedIncreasing(a: nat, b: nat)
    requires a < b
    ensures AccruedFee(a) < AccruedFee(b)
    decreases b
  {
    if a < b - 1 {
      AccruedIncreasing(a, b - 1);
    }
  }

  /** The overdue-book entry a transaction contributes for member `id` on `date`. */
  function OverdueEntry(t: Transaction, id: int, date: int): seq<OverdueBook> {
    if t.memberId == id && !t.returned && date - t.dueDate > 0
    then [OverdueBook(t.isbn, date - t.dueDate, OverdueFee(date - t.dueDate))]
    else []
  }

  /** `overdue_books`: one entry per unreturned, overdue transaction of the member,
      in transaction order. */
  function OverdueBooks(ts: seq<Transaction>, id: int, date: int): seq<OverdueBook> {
    FlatMap(ts, (t: Transaction) => OverdueEntry(t, id, date))
  }

  function Fee(ob: OverdueBook): nat { ob.fee }

  /** `total_fee`. */
  function TotalFee(due: seq<OverdueBook>): nat {
    Sum(due, Fee)
  }

  /** The notifications sent for one overdue book. */
  function Notice(name: string, ob: OverdueBook): seq<Notification> {
    [OverdueNotice(name, ob.isbn, ob.fee)] + (if ob.days > 30 then [UrgentNotice(name, ob.days)] else [])
  }

  function Notices(name: string, due: seq<OverdueBook>): seq<Notification> {
    FlatMap(due, (ob: OverdueBook) => Notice(name, ob))
  }

  function IsUrgent(ob: OverdueBook): bool { ob.days > 30 }

  /** `overdue_fees` after charging `due` to member `id`: the key is created only
      when some book is overdue. */
  function Charged(fees: map<int, int>, id: int, due: seq<OverdueBook>): map<int, int> {
    if due == [] then fees else fees[id := (if id in fees then fees[id] else 0) + TotalFee(due)]
  }

  /** `system_stats` after counting `n` more overdue books. */
  function Counted(stats: map<string, int>, n: nat): map<string, int> {
    stats[OverdueCount := (if OverdueCount in stats then stats[OverdueCount] else 0) + n]
  }

  /** Exactly the member's unreturned transactions with a positive delay are
      reported, each with that delay and its scheduled fee. */
  lemma OverdueBooksExact(ts: seq<Transaction>, id: int, date: int)
    ensures forall ob :: ob in OverdueBooks(ts, id, date) <==>
      exists t :: t in ts && t.memberId == id && !t.returned && date - t.dueDate > 0 &&
        ob == OverdueBook(t.isbn, date - t.dueDate, OverdueFee(date - t.dueDate))
  {
    FlatMapMembers(ts, (t: Transaction) => OverdueEntry(t, id, date));
  }

  /** Each reported book is overdue and charged by the schedule, so a non-empty
      report has a positive total. */
  lemma {:induction false} OverdueTotal(ts: seq<Transaction>, id: int, date: int)
    ensures forall ob :: ob in OverdueBooks(ts, id, date) ==> ob.days > 0 && ob.fee == OverdueFee(ob.days)
    ensures OverdueBooks(ts, id, date) != [] ==> TotalFee(OverdueBooks(ts, id, date)) > 0
  {
    if ts != [] {
      var init, t := ts[..|ts| - 1], ts[|ts| - 1];
      OverdueTotal(init, id, date);
      var d0 := OverdueBooks(init, id, date);
      var e := OverdueEntry(t, id, date);
      assert OverdueBooks(ts, id, date) == d0 + e;
      SumAppend(d0, e, Fee);
      if e != [] {
        assert Sum(e, Fee) == e[0].fee by { assert e[..0] == []; }
      }
    }
  }

  /** One notification per overdue book plus one per book over 30 days. */
  lemma {:induction false} NoticeCount(name: string, due: seq<OverdueBook>)
    ensures |Notices(name, due)| == |due| + |Filter(due, IsUrgent)|
  {
    if due != [] {
      NoticeCount(name, due[..|due| - 1]);
    }
  }

  /** The charged total lands on the member's key and nowhere else. */
  lemma ChargedOnlyMember(fees: map<int, int>, id: int, due: seq<OverdueBook>)
    ensures forall k :: k != id ==> (k in Charged(fees, id, due) <==> k in fees)
    ensures forall k :: k != id && k in fees ==> Charged(fees, id, due)[k] == fees[k]
    ensures due != [] ==>
      id in Charged(fees, id, due) && Charged(fees, id, due)[id] == (if id in fees then fees[id] else 0) + TotalFee(due)
    ensures due == [] ==> Charged(fees, id, due) == fees
  {
  }

  // --------------------------------------------------------------- search

  /** The two searchable book fields. */
  datatype BookField = Author | Category

  function FieldOf(b: Book, field: BookField): string {
    match field
    case Author => b.author
    case Category => b.category
  }

  /** `book[field].lower() == name.lower()` (ASCII case folding). */
  predicate Matches(b: Book, field: BookField, name: string) {
    Lower(FieldOf(b, field)) == Lower(name)
  }

  /** The line a search prints for one book. */
  function Listing(b: Book): string {
    b.title + " by " + b.author + " (ISBN: " + b.isbn + ")"
  }

  function Listings(bs: seq<Book>): (r: seq<string>)
    ensures |r| == |bs| && forall k :: 0 <= k < |bs| ==> r[k] == Listing(bs[k])
  {
    seq(|bs|, k requires 0 <= k < |bs| => Listing(bs[k]))
  }

  function Hits(books: seq<Book>, field: BookField, name: string): seq<Book> {
    Filter(books, (b: Book) => Matches(b, field, name))
  }

  lemma HitsStep(books: seq<Book>, field: BookField, name: string, k: nat)
    requires k < |books|
    ensures Hits(books[..k + 1], field, name) ==
      Hits(books[..k], field, name) + if Matches(books[k], field, name) then [books[k]] else []
  {
    assert books[..k + 1][..k] == books[..k];
  }

  /** What `search_books_by_author` / `search_books_by_category` return. */
  function SearchResult(books: seq<Book>, field: BookField, name: string): Option<seq<string>> {
    var hits := Hits(books, field, name);
    if hits == [] then None else Some(Listings(hits))
  }

  /** A search finds nothing exactly when no book matches; otherwise it lists the
      matching books, every one of them, in library order. */
  lemma SearchFindsMatches(books: seq<Book>, field: BookField, name: string)
    ensures SearchResult(books, field, name).None? <==> forall b :: b in books ==> !Matches(b, field, name)
    ensures SearchResult(books, field, name).Some? ==>
      SearchResult(books, field, name).value == Listings(Hits(books, field, name))
    ensures forall b :: b in Hits(books, field, name) <==> b in books && Matches(b, field, name)
    ensures IsSubsequence(Hits(books, field, name), books)
  {
    FilterMembers(books, (b: Book) => Matches(b, field, name));
    FilterKeepsOrder(books, (b: Book) => Matches(b, field, name));
    if Hits(books, field, name) != [] {
      assert Hits(books, field, name)[0] in Hits(books, field, name);
    }
  }

  /** The search ignores the case of the name searched for. */
  lemma SearchIgnoresCase(books: seq<Book>, field: BookField, name: string)
    ensures SearchResult(books, field, name) == SearchResult(books, field, Lower(name))
  {
    LowerIdempotent(name);
    assert forall b :: Matches(b, field, name) == Matches(b, field, Lower(name));
    assert Hits(books, field, name) == Hits(books, field, Lower(name)) by {
      FilterSame(books, (b: Book) => Matches(b, field, name), (b: Book) => Matches(b, field, Lower(name)));
    }
  }

  lemma {:induction false} FilterSame<T>(s: seq<T>, p: T -> bool, q: T -> bool)
    requires forall x :: p(x) == q(x)
    ensures Filter(s, p) == Filter(s, q)
  {
    if s != [] {
      FilterSame(s[..|s| - 1], p, q);
    }
  }

  /** `search_books_by_author`. */
  method SearchBooksByAuthor(library: LibraryManagementSystem, authorName: string) returns (r: Option<seq<string>>)
    ensures r == SearchResult(library.books, Author, authorName)
  {
    r := SearchBooks(library.books, Author, authorName);
  }

  /** `search_books_by_category`. */
  method SearchBooksByCategory(library: LibraryManagementSystem, categoryName: string) returns (r: Option<seq<string>>)
    ensures r == SearchResult(library.books, Category, categoryName)
  {
    r := SearchBooks(library.books, Category, categoryName);
  }

  /** The loop both searches repeat: collect the matching books, give up when
      there is none, then format each. */
  method SearchBooks(books: seq<Book>, field: BookField, name: string) returns (r: Option<seq<string>>)
    ensures r == SearchResult(books, field, name)
  {
    var results: seq<Book> := [];
    var key := Lower(name);
    for k := 0 to |books|
      invariant results == Hits(books[..k], field, name)
    {
      var book := books[k];
      HitsStep(books, field, name, k);
      if Lower(FieldOf(book, field)) == key {
        results := results + [book];
      }
    }
    assert books[..|books|] == books;
    if |results| == 0 {
      return None;
    }
    var formatted: seq<string> := [];
    for k := 0 to |results|
      invariant formatted == Listings(results[..k])
    {
      formatted := formatted + [Listing(results[k])];
    }
    assert results[..|results|] == results;
    r := Some(formatted);
  }

  // --------------------------------------------------------------- the system

  /** `book_categories` lists, for each category present, the positions of its
      books in `books`. */
  ghost predicate CategoriesIndexed(books: seq<Book>, index: map<string, seq<nat>>) {
    && (forall c :: c in index ==> index[c] == CategoryIndices(Categories(books), c) && index[c] != [])
    && (forall i :: 0 <= i < |books| ==> books[i].category in index)
  }

  /** Members are numbered 1.. in registration order and `member_types` mirrors them. */
  ghost predicate MembersNumbered(members: seq<Member>, types: map<int, string>) {
    && (forall i :: 0 <= i < |members| ==> members[i].id == i + 1)
    && (forall i :: 0 <= i < |members| ==> members[i].id in types && types[members[i].id] == members[i].memberType)
    && (forall id :: id in types ==> 1 <= id <= |members|)
  }

  /** Every lent copy has its transaction, and each member's `borrowed_books` is
      the isbns of that member's transactions. */
  ghost predicate LoansRecorded(books: seq<Book>, members: seq<Member>, transactions: seq<Transaction>) {
    && (forall i :: 0 <= i < |books| ==>
          books[i].available <= books[i].copies &&
          (books[i].available < books[i].copies ==> books[i].available >= 0))
    && Sum(books, Lent) == |transactions|
    && (forall k :: 0 <= k < |transactions| ==> 1 <= transactions[k].memberId <= |members|)
    && (forall i :: 0 <= i < |members| ==> members[i].borrowedBooks == Borrowed(transactions, i + 1))
  }

  /** Every fee owed is positive (an entry is only created when a fee is charged). */
  ghost predicate FeesPositive(fees: map<int, int>) {
    forall id :: id in fees ==> fees[id] > 0
  }

  /** The invariant of the library's tables, over their values. */
  ghost predicate Consistent(books: seq<Book>, members: seq<Member>, transactions: seq<Transaction>,
                             fees: map<int, int>, index: map<string, seq<nat>>, types: map<int, string>) {
    && CategoriesIndexed(books, index)
    && MembersNumbered(members, types)
    && LoansRecorded(books, members, transactions)
    && FeesPositive(fees)
  }

  class LibraryManagementSystem {
    var books: seq<Book>
    var members: seq<Member>
    var transactions: seq<Transaction>
    var overdueFees: map<int, int>
    var bookCategories: map<string, seq<nat>>
    var memberTypes: map<int, string>
    var notifications: seq<Notification>
    var systemStats: map<string, int>

    ghost predicate Valid()
      reads this
    {
      Consistent(books, members, transactions, overdueFees, bookCategories, memberTypes)
    }

    /** `__init__`: every table empty. */
    constructor ()
      ensures books == [] && members == [] && transactions == [] && notifications == []
      ensures overdueFees == map[] && bookCategories == map[] && memberTypes == map[] && systemStats == map[]
      ensures Valid()
    {
      books, members, transactions, notifications := [], [], [], [];
      overdueFees, bookCategories, memberTypes, systemStats := map[], map[], map[], map[];
    }

    /** `add_book`: one more book with every copy available, listed under its
        category (created empty when new). */
    method AddBook(title: string, author: string, isbn: string, category: string, copies: int)
      requires Valid()
      modifies this
      ensures Valid()
      ensures books == old(books) + [Book(title, author, isbn, category, copies, copies)]
      ensures bookCategories == old(bookCategories)[category :=
        (if category in old(bookCategories) then old(bookCategories)[category] else []) + [|old(books)|]]
      ensures members == old(members) && transactions == old(transactions) && overdueFees == old(overdueFees)
      ensures memberTypes == old(memberTypes) && notifications == old(notifications) && systemStats == old(systemStats)
    {
      var book := Book(title, author, isbn, category, copies, copies);
      // a new category starts with an empty list; the book is appended to it
      var listed := if category in bookCategories then bookCategories[category] else [];
      var books', bookCategories' := books + [book], bookCategories[category := listed + [|books|]];
      AddedBook(books, members, transactions, overdueFees, bookCategories, memberTypes, book, books', bookCategories');
      books, bookCategories := books', bookCategories';
    }

    /** `register_member`: the next id, no books borrowed, its type recorded. */
    method RegisterMember(name: string, email: string, phone: string, address: string, memberType: string)
      requires Valid()
      modifies this
      ensures Valid()
      ensures members == old(members) + [Member(|old(members)| + 1, name, email, phone, address, memberType, [])]
      ensures memberTypes == old(memberTypes)[|old(members)| + 1 := memberType]
      ensures books == old(books) && transactions == old(transactions) && overdueFees == old(overdueFees)
      ensures bookCategories == old(bookCategories) && notifications == old(notifications) && systemStats == old(systemStats)
    {
      var id := |members| + 1;
      var member := Member(id, name, email, phone, address, memberType, []);
      RegisteredMember(books, members, transactions, overdueFees, bookCategories, memberTypes, member);
      members, memberTypes := members + [member], memberTypes[id := memberType];
    }

    /** The `for m in self.members` search shared by checkout and fee processing. */
    method FindMember(memberId: int) returns (found: Option<nat>)
      ensures found == MemberIndex(members, memberId)
    {
      var k := 0;
      while k < |members|
        invariant 0 <= k <= |members|
        invariant forall j :: 0 <= j < k ==> members[j].id != memberId
      {
        if members[k].id == memberId {
          return Some(k);
        }
        k := k + 1;
      }
      return None;
    }

    /** The `for book in self.books` search of a checkout: the first book with
        that isbn and a copy left. */
    method FindBook(isbn: string) returns (found: Option<nat>)
      ensures found == BookToLend(books, isbn)
    {
      var b := 0;
      while b < |books|
        invariant 0 <= b <= |books|
        invariant forall j :: 0 <= j < b ==> !(books[j].isbn == isbn && books[j].available > 0)
      {
        if books[b].isbn == isbn && books[b].available > 0 {
          return Some(b);
        }
        b := b + 1;
      }
      return None;
    }

    /** `process_book_checkout`: lends the first available copy with that isbn to
        the member, or fails and changes nothing. */
    method ProcessBookCheckout(memberId: int, isbn: string, checkoutDate: int, dueDate: int,
                               staffName: string, location: string) returns (ok: bool)
      requires Valid()
      modifies this
      ensures Valid()
      ensures ok <==> BookToLend(old(books), isbn).Some? && MemberIndex(old(members), memberId).Some?
      ensures !ok ==> books == old(books) && members == old(members) && transactions == old(transactions)
      ensures ok ==>
        var b, m := BookToLend(old(books), isbn).value, MemberIndex(old(members), memberId).value;
        && books == old(books)[b := old(books)[b].(available := old(books)[b].available - 1)]
        && members == old(members)[m := old(members)[m].(borrowedBooks := old(members)[m].borrowedBooks + [isbn])]
        && transactions == old(transactions) + [Transaction(memberId, isbn, checkoutDate, dueDate, staffName, location, false)]
      ensures overdueFees == old(overdueFees) && bookCategories == old(bookCategories) && memberTypes == old(memberTypes)
      ensures notifications == old(notifications) && systemStats == old(systemStats)
    {
      var book := FindBook(isbn);
      if book.None? {
        return false;
      }
      var b := book.value;
      var found := FindMember(memberId);
      if found.None? {
        return false;
      }
      var m := found.value;
      Lend(b, m, Transaction(memberId, isbn, checkoutDate, dueDate, staffName, location, false));
      ok := true;
    }

    /** The lending half of a checkout: one copy fewer, the isbn on the member's
        list and the transaction recorded. */
    method Lend(b: nat, m: nat, transaction: Transaction)
      requires Valid()
      requires b < |books| && books[b].isbn == transaction.isbn && books[b].available > 0
      requires m < |members| && transaction.memberId == members[m].id
      modifies this
      ensures Valid()
      ensures books == old(books)[b := old(books)[b].(available := old(books)[b].available - 1)]
      ensures members == old(members)[m := old(members)[m].(borrowedBooks := old(members)[m].borrowedBooks + [transaction.isbn])]
      ensures transactions == old(transactions) + [transaction]
      ensures overdueFees == old(overdueFees) && bookCategories == old(bookCategories) && memberTypes == old(memberTypes)
      ensures notifications == old(notifications) && systemStats == old(systemStats)
    {
      var books', members' :=
        books[b := books[b].(available := books[b].available - 1)],
        members[m := members[m].(borrowedBooks := members[m].borrowedBooks + [transaction.isbn])];
      CheckedOut(books, members, transactions, overdueFees, bookCategories, memberTypes, b, m, transaction, books', members');
      books, members, transactions := books', members', transactions + [transaction];
    }

    /** `calculate_and_process_overdue_fees_with_notifications_and_updates`: for a
        known member, charges every overdue unreturned loan by the schedule,
        notifies per book (twice past 30 days) and counts the overdue books;
        for an unknown member, returns nothing and changes nothing. */
    method ProcessOverdueFees(memberId: int, returnDate: int) returns (report: Option<FeeReport>)
      requires Valid()
      modifies this
      ensures Valid()
      ensures books == old(books) && members == old(members) && transactions == old(transactions)
      ensures bookCategories == old(bookCategories) && memberTypes == old(memberTypes)
      ensures MemberIndex(members, memberId).None? ==>
        report.None? && overdueFees == old(overdueFees) && notifications == old(notifications) &&
        systemStats == old(systemStats)
      ensures MemberIndex(members, memberId).Some? ==>
        var due := OverdueBooks(transactions, memberId, returnDate);
        && report == Some(FeeReport(memberId, TotalFee(due), due))
        && overdueFees == Charged(old(overdueFees), memberId, due)
        && notifications == old(notifications) + Notices(members[MemberIndex(members, memberId).value].name, due)
        && systemStats == Counted(old(systemStats), |due|)
    {
      var found := FindMember(memberId);
      if found.None? {
        return None;
      }
      var member := members[found.value];
      var overdue, totalFee, fees, sent := ChargeOverdue(memberId, member.name, returnDate);
      Record(fees, sent, |overdue|);
      report := Some(FeeReport(memberId, totalFee, overdue));
    }

    /** The closing updates of the overdue processing: the new fee table and
        notification list, and `n` more under the overdue counter. */
    method Record(fees: map<int, int>, sent: seq<Notification>, n: nat)
      requires Valid() && FeesPositive(fees)
      modifies this
      ensures Valid()
      ensures overdueFees == fees && notifications == sent && systemStats == Counted(old(systemStats), n)
      ensures books == old(books) && members == old(members) && transactions == old(transactions)
      ensures bookCategories == old(bookCategories) && memberTypes == old(memberTypes)
    {
      // the counter starts at zero
      var counted := if OverdueCount in systemStats then systemStats[OverdueCount] else 0;
      assert Consistent(books, members, transactions, fees, bookCategories, memberTypes);
      overdueFees, notifications, systemStats := fees, sent, systemStats[OverdueCount := counted + n];
    }

    /** The loop over `self.transactions` of the overdue processing, on local
        copies: the overdue books found, their total fee, the fee table and the
        notification list it leaves. */
    method ChargeOverdue(memberId: int, name: string, returnDate: int)
      returns (overdue: seq<OverdueBook>, totalFee: nat, fees: map<int, int>, sent: seq<Notification>)
      requires FeesPositive(overdueFees)
      ensures overdue == OverdueBooks(transactions, memberId, returnDate)
      ensures totalFee == TotalFee(overdue)
      ensures fees == Charged(overdueFees, memberId, overdue)
      ensures sent == notifications + Notices(name, overdue)
      ensures FeesPositive(fees)
    {
      totalFee, overdue := 0, [];
      fees, sent := overdueFees, notifications;
      for k := 0 to |transactions|
        invariant overdue == OverdueBooks(transactions[..k], memberId, returnDate)
        invariant totalFee == TotalFee(overdue)
        invariant fees == Charged(overdueFees, memberId, overdue)
        invariant sent == notifications + Notices(name, overdue)
        invariant FeesPositive(fees)
      {
        var transaction := transactions[k];
        OverdueStep(transactions, k, memberId, returnDate);
        TallyStep(overdueFees, memberId, name, overdue, OverdueEntry(transaction, memberId, returnDate));
        overdue, totalFee, fees, sent :=
          ChargeTransaction(transaction, memberId, name, returnDate, overdue, totalFee, fees, sent);
      }
      assert transactions[..|transactions|] == transactions;
    }
  }

  /** One round of the overdue loop: a transaction of the member that is still
      out and past its due date adds its entry, its fee, its charge and its
      notifications; any other transaction changes nothing. */
  method ChargeTransaction(t: Transaction, memberId: int, name: string, returnDate: int,
                           overdue: seq<OverdueBook>, totalFee: nat, fees: map<int, int>, sent: seq<Notification>)
    returns (overdue': seq<OverdueBook>, totalFee': nat, fees': map<int, int>, sent': seq<Notification>)
    requires FeesPositive(fees)
    ensures var e := OverdueEntry(t, memberId, returnDate);
      && overdue' == overdue + e && totalFee' == totalFee + TotalFee(e)
      && fees' == Charged(fees, memberId, e) && sent' == sent + Notices(name, e)
    ensures FeesPositive(fees')
  {
    overdue', totalFee', fees', sent' := overdue, totalFee, fees, sent;
    assert OverdueEntry(t, memberId, returnDate) == [] ==> overdue + [] == overdue && sent + [] == sent;
    if t.memberId == memberId && !t.returned {
      var daysOverdue := returnDate - t.dueDate;
      if daysOverdue > 0 {
        var fee := OverdueFee(daysOverdue);
        var entry := OverdueBook(t.isbn, daysOverdue, fee);
        SingleEntry(name, entry);
        totalFee' := totalFee + fee;
        overdue' := overdue + [entry];
        // a member without fees starts at zero
        var owed := if memberId in fees then fees[memberId] else 0;
        fees' := fees[memberId := owed + fee];
        sent' := sent + [OverdueNotice(name, t.isbn, fee)];
        if daysOverdue > 30 {
          sent' := sent' + [UrgentNotice(name, daysOverdue)];
        }
      }
    }
  }

  /** Appending the entries `e` (none or one) of a transaction to the report extends
      the total, the charge and the notifications accordingly. */
  lemma TallyStep(fees: map<int, int>, id: int, name: string, due: seq<OverdueBook>, e: seq<OverdueBook>)
    requires |e| <= 1
    ensures TotalFee(due + e) == TotalFee(due) + TotalFee(e)
    ensures Notices(name, due + e) == Notices(name, due) + Notices(name, e)
    ensures Charged(fees, id, due + e) == Charged(Charged(fees, id, due), id, e)
  {
    if e == [] {
      assert due + e == due;
    } else {
      assert e == [e[0]];
      ChargeStep(fees, id, due, e[0]);
      NoticeStep(name, due, e[0]);
      SingleEntry(name, e[0]);
    }
  }

  /** `add_book` keeps the tables consistent. */
  lemma AddedBook(books: seq<Book>, members: seq<Member>, ts: seq<Transaction>,
                  fees: map<int, int>, index: map<string, seq<nat>>, types: map<int, string>, book: Book,
                  books': seq<Book>, index': map<string, seq<nat>>)
    requires Consistent(books, members, ts, fees, index, types) && book.available == book.copies
    requires books' == books + [book]
    requires index' == index[book.category := (if book.category in index then index[book.category] else []) + [|books|]]
    ensures Consistent(books', members, ts, fees, index', types)
  {
    AddedBookIndexed(books, index, book);
    AddedBookLends(books, members, ts, book);
  }

  /** `register_member` keeps the tables consistent. */
  lemma RegisteredMember(books: seq<Book>, members: seq<Member>, ts: seq<Transaction>,
                         fees: map<int, int>, index: map<string, seq<nat>>, types: map<int, string>, member: Member)
    requires Consistent(books, members, ts, fees, index, types)
    requires member.id == |members| + 1 && member.borrowedBooks == []
    ensures Consistent(books, members + [member], ts, fees, index, types[member.id := member.memberType])
  {
    RegisteredMemberNumbered(members, types, member);
    RegisteredMemberLends(books, members, ts, member);
  }

  /** A checkout keeps the tables consistent. */
  lemma CheckedOut(books: seq<Book>, members: seq<Member>, ts: seq<Transaction>,
                   fees: map<int, int>, index: map<string, seq<nat>>, types: map<int, string>,
                   b: nat, m: nat, t: Transaction, books': seq<Book>, members': seq<Member>)
    requires Consistent(books, members, ts, fees, index, types)
    requires b < |books| && books[b].isbn == t.isbn && books[b].available > 0
    requires m < |members| && t.memberId == members[m].id
    requires books' == books[b := books[b].(available := books[b].available - 1)]
    requires members' == members[m := members[m].(borrowedBooks := members[m].borrowedBooks + [t.isbn])]
    ensures Consistent(books', members', ts + [t], fees, index, types)
  {
    CheckoutLends(books, members, ts, b, m, t);
    forall i | 0 <= i < |members'|
      ensures members'[i].id == i + 1 && members'[i].id in types && types[members'[i].id] == members'[i].memberType
    {
      assert members'[i].id == members[i].id && members'[i].memberType == members[i].memberType;
    }
    assert Categories(books') == Categories(books);
  }

  /** `add_book` keeps `book_categories` an index of `books`. */
  lemma AddedBookIndexed(books: seq<Book>, index: map<string, seq<nat>>, book: Book)
    requires CategoriesIndexed(books, index)
    ensures CategoriesIndexed(books + [book],
      index[book.category := (if book.category in index then index[book.category] else []) + [|books|]])
  {
    var books', c := books + [book], book.category;
    assert Categories(books')[..|books|] == Categories(books);
    if c !in index {
      NoIndices(Categories(books), c);
    }
  }

  /** A new book has no copy lent out. */
  lemma AddedBookLends(books: seq<Book>, members: seq<Member>, ts: seq<Transaction>, book: Book)
    requires LoansRecorded(books, members, ts) && book.available == book.copies
    ensures LoansRecorded(books + [book], members, ts)
  {
    SumAppend(books, [book], Lent);
    assert Sum([book], Lent) == 0 by { assert [book][..0] == []; }
  }

  /** `register_member` numbers the new member after the others. */
  lemma RegisteredMemberNumbered(members: seq<Member>, types: map<int, string>, member: Member)
    requires MembersNumbered(members, types) && member.id == |members| + 1
    ensures MembersNumbered(members + [member], types[member.id := member.memberType])
  {
    var members', types' := members + [member], types[member.id := member.memberType];
    forall i | 0 <= i < |members'|
      ensures members'[i].id == i + 1
      ensures members'[i].id in types' && types'[members'[i].id] == members'[i].memberType
    {
      if i < |members| {
        assert members'[i] == members[i];
      }
    }
    forall id | id in types' ensures 1 <= id <= |members'| {
      if id != member.id {
        assert id in types;
      }
    }
  }

  /** A new member has borrowed nothing. */
  lemma RegisteredMemberLends(books: seq<Book>, members: seq<Member>, ts: seq<Transaction>, member: Member)
    requires LoansRecorded(books, members, ts) && member.id == |members| + 1 && member.borrowedBooks == []
    ensures LoansRecorded(books, members + [member], ts)
  {
    NoBorrowed(ts, member.id);
  }

  /** A checkout takes one copy and records it for the borrowing member only. */
  lemma CheckoutLends(books: seq<Book>, members: seq<Member>, ts: seq<Transaction>, b: nat, m: nat, t: Transaction)
    requires LoansRecorded(books, members, ts)
    requires b < |books| && books[b].isbn == t.isbn && books[b].available > 0
    requires m < |members| && t.memberId == m + 1 && members[m].id == m + 1
    ensures LoansRecorded(books[b := books[b].(available := books[b].available - 1)],
                          members[m := members[m].(borrowedBooks := members[m].borrowedBooks + [t.isbn])],
                          ts + [t])
  {
    var books' := books[b := books[b].(available := books[b].available - 1)];
    var members' := members[m := members[m].(borrowedBooks := members[m].borrowedBooks + [t.isbn])];
    SumUpdate(books, b, books'[b], Lent);
    forall i | 0 <= i < |members'|
      ensures members'[i].borrowedBooks == Borrowed(ts + [t], i + 1)
    {
      BorrowedAppend(ts, t, i + 1);
    }
  }

  /** One more transaction adds its overdue entry, if any, to the report. */
  lemma OverdueStep(ts: seq<Transaction>, k: nat, id: int, date: int)
    requires k < |ts|
    ensures OverdueBooks(ts[..k + 1], id, date) == OverdueBooks(ts[..k], id, date) + OverdueEntry(ts[k], id, date)
  {
    assert ts[..k + 1][..k] == ts[..k];
  }

  /** One more overdue book adds its notifications after the earlier ones. */
  lemma NoticeStep(name: string, due: seq<OverdueBook>, ob: OverdueBook)
    ensures Notices(name, due + [ob]) == Notices(name, due) + Notice(name, ob)
  {
    assert (due + [ob])[..|due|] == due;
  }

  /** A report of one book: its fee and its notifications. */
  lemma SingleEntry(name: string, ob: OverdueBook)
    ensures TotalFee([ob]) == ob.fee && Notices(name, [ob]) == Notice(name, ob)
  {
    ChargeStep(map[], 0, [], ob);
    NoticeStep(name, [], ob);
    assert [] + [ob] == [ob];
  }

  /** Charging one more book adds its fee to the member's running total. */
  lemma ChargeStep(fees: map<int, int>, id: int, due: seq<OverdueBook>, ob: OverdueBook)
    ensures TotalFee(due + [ob]) == TotalFee(due) + ob.fee
    ensures var c := Charged(fees, id, due);
      Charged(fees, id, due + [ob]) == c[id := (if id in c then c[id] else 0) + ob.fee]
  {
    assert (due + [ob])[..|due|] == due;
  }

  /** A category nobody has yet lists no position. */
  lemma NoIndices(cats: seq<string>, c: string)
    requires forall i :: 0 <= i < |cats| ==> cats[i] != c
    ensures CategoryIndices(cats, c) == []
  {
    CategoryIndicesExact(cats, c);
    var r := CategoryIndices(cats, c);
    assert forall k :: 0 <= k < |r| ==> r[k] in r;
  }

  /** A new member has no transaction yet. */
  lemma {:induction false} NoBorrowed(ts: seq<Transaction>, id: int)
    requires forall k :: 0 <= k < |ts| ==> ts[k].memberId != id
    ensures Borrowed(ts, id) == []
  {
    if ts != [] {
      NoBorrowed(ts[..|ts| - 1], id);
    }
  }
}
