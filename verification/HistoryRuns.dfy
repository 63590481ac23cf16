/** What a page's stored history is over whole runs of saves and deletions, under caps that may change. */
module HistoryRuns {
  import opened Common
  import opened PageHistory

  /** One save of a page, as its author made it. */
  datatype Save = Save(fields: Fields, editedBy: Option<Id>, note: Option<string>, createdAt: Time)

  /** Every save a page ever had, oldest first; authors whose account is deleted are cleared. */
  type Log = map<Id, seq<Save>>

  datatype Event =
    | Created(organization: Option<Id>, fields: Fields, author: Option<Id>, note: Option<string>, now: Time, cap: nat)
    | Edited(organization: Option<Id>, id: Id, update: Update, now: Time, cap: nat)
    | Deleted(organization: Option<Id>, id: Id)
    | AccountDeleted(user: Id)

  const EMPTY := Store(map[], 1, [])

  function Step(s: Store, e: Event): Store {
    match e
    case Created(organization, fields, author, note, now, cap) =>
      Create(s, organization, fields, author, note, now, cap).0
    case Edited(organization, id, update, now, cap) => Edit(s, organization, id, update, now, cap).0
    case Deleted(organization, id) => Delete(s, organization, id).0
    case AccountDeleted(user) => ForgetUser(s, user)
  }

  function Saves(log: Log, page: Id): seq<Save> {
    if page in log then log[page] else []
  }

  /** Which page an event saves, if it goes through, and what is saved. */
  function SavedBy(s: Store, e: Event): Option<(Id, Save)> {
    match e
    case Created(organization, fields, author, note, now, cap) =>
      if Create(s, organization, fields, author, note, now, cap).1.Ok?
      then Some((s.nextPage, Save(fields, author, note, now))) else None
    case Edited(organization, id, update, now, cap) =>
      (match Edit(s, organization, id, update, now, cap).1
       case Ok(Some(page)) =>
         var slug := if update.slug.Some? then update.slug.value else s.pages[id].fields.slug;
         Some((id, Save(update.fields.(slug := slug), update.editedBy, update.note, now)))
       case _ => None)
    case _ => None
  }

  function ForgetAuthor(saves: seq<Save>, user: Id): seq<Save> {
    if saves == [] then []
    else
      var last := saves[|saves| - 1];
      ForgetAuthor(saves[..|saves| - 1], user) + [last.(editedBy := Without(last.editedBy, user))]
  }

  function StepLog(s: Store, log: Log, e: Event): Log {
    if e.AccountDeleted? then map p | p in log :: ForgetAuthor(log[p], e.user)
    else
      match SavedBy(s, e)
      case None => log
      case Some((page, save)) => log[page := Saves(log, page) + [save]]
  }

  function Run(s: Store, events: seq<Event>): Store
    decreases |events|
  {
    if events == [] then s else Run(Step(s, events[0]), events[1..])
  }

  function RunLog(s: Store, log: Log, events: seq<Event>): Log
    decreases |events|
  {
    if events == [] then log else RunLog(Step(s, events[0]), StepLog(s, log, events[0]), events[1..])
  }

  // ---------------------------------------------------------------------
  // The stored rows are the newest part of the log
  // ---------------------------------------------------------------------

  /** The revision row of the k-th save, counted from one. */
  function Row(page: Id, saves: seq<Save>, k: nat): Revision
    requires 1 <= k <= |saves|
  {
    var save := saves[k - 1];
    Revision(page, k, save.fields, save.editedBy, save.note, save.createdAt)
  }

  /** The rows of the newest `count` saves, oldest first, each under its own number. */
  function Newest(page: Id, saves: seq<Save>, count: nat): seq<Revision>
    requires count <= |saves|
  {
    if count == 0 then [] else Newest(page, saves[..|saves| - 1], count - 1) + [Row(page, saves, |saves|)]
  }

  /** How many rows one more save leaves. */
  function Kept(count: nat, cap: nat): nat {
    if cap == 0 || count < cap then count + 1 else cap
  }

  lemma {:induction false} NewestNumbers(page: Id, saves: seq<Save>, count: nat)
    requires count <= |saves|
    ensures var rows := Newest(page, saves, count);
            |rows| == count && forall i :: 0 <= i < count ==> rows[i] == Row(page, saves, |saves| - count + i + 1)
    decreases count
  {
    if count > 0 {
      var init := saves[..|saves| - 1];
      NewestNumbers(page, init, count - 1);
      assert forall k :: 1 <= k <= |init| ==> Row(page, init, k) == Row(page, saves, k);
    }
  }

  lemma MaxOfNewest(page: Id, saves: seq<Save>, count: nat)
    requires count <= |saves| && (count == 0 ==> saves == [])
    ensures MaxNumber(Newest(page, saves, count)) == |saves|
  {
    if count > 0 {
      var rows := Newest(page, saves, count);
      NewestNumbers(page, saves, count);
      MaxBelow(rows[..count - 1], |saves| - 1);
      assert rows[count - 1].number == |saves|;
    }
  }

  lemma {:induction false} MaxBelow(rows: seq<Revision>, bound: nat)
    requires forall i :: 0 <= i < |rows| ==> rows[i].number <= bound
    ensures MaxNumber(rows) <= bound
  {
    if rows != [] {
      MaxBelow(rows[..|rows| - 1], bound);
    }
  }

  lemma {:induction false} AboveOfNewest(page: Id, saves: seq<Save>, count: nat, floor: nat)
    requires count <= |saves| && floor <= |saves|
    ensures Above(Newest(page, saves, count), floor)
         == Newest(page, saves, if |saves| - count < floor then |saves| - floor else count)
    decreases count
  {
    if count > 0 {
      var init := saves[..|saves| - 1];
      var rows := Newest(page, init, count - 1);
      AboveAppend(rows, Row(page, saves, |saves|), floor);
      if floor < |saves| {
        AboveOfNewest(page, init, count - 1, floor);
      } else {
        NewestNumbers(page, init, count - 1);
        NothingAbove(rows, floor);
      }
    }
  }

  lemma {:induction false} NothingAbove(rows: seq<Revision>, floor: nat)
    requires forall i :: 0 <= i < |rows| ==> rows[i].number <= floor
    ensures Above(rows, floor) == []
  {
    if rows != [] {
      NothingAbove(rows[..|rows| - 1], floor);
    }
  }

  lemma NextIsNewest(rs: seq<Revision>, page: Id, saves: seq<Save>)
    requires RowsAreNewest(rs, page, saves) && (Stored(rs, page) == [] ==> saves == [])
    ensures NextNumber(rs, page) == |saves| + 1
  {
    MaxOfNewest(page, saves, |Stored(rs, page)|);
  }

  /** One recorded revision: the new row is the newest, pruning keeps the newest, other pages keep theirs. */
  lemma RecordKeepsNewest(rs: seq<Revision>, page: Id, saves: seq<Save>, save: Save, cap: nat, other: Id)
    requires RowsAreNewest(rs, page, saves) && (Stored(rs, page) == [] ==> saves == [])
    ensures var after := Record(rs, page, save.fields, save.editedBy, save.note, save.createdAt, cap);
            Stored(after, other)
            == if other == page then Newest(page, saves + [save], Kept(|Stored(rs, page)|, cap)) else Stored(rs, other)
  {
    if other == page {
      RecordAppends(rs, page, saves, save, cap);
      AppendKeepsNewest(rs, page, saves, save);
      PruneKeepsNewest(rs + [Row(page, saves + [save], |saves| + 1)], page, saves + [save],
                       |Stored(rs, page)| + 1, cap);
    } else {
      RecordLeavesOthers(rs, page, save.fields, save.editedBy, save.note, save.createdAt, cap, other);
    }
  }

  lemma RecordLeavesOthers(rs: seq<Revision>, page: Id, fields: Fields, author: Option<Id>, note: Option<string>,
                           now: Time, cap: nat, other: Id)
    requires other != page
    ensures Stored(Record(rs, page, fields, author, note, now, cap), other) == Stored(rs, other)
  {
    var number := NextNumber(rs, page);
    var row := Revision(page, number, fields, author, note, now);
    StoredAppend(rs, row, other);
    StoredAfterDelete(rs + [row], page, number - cap, other);
  }

  lemma RecordAppends(rs: seq<Revision>, page: Id, saves: seq<Save>, save: Save, cap: nat)
    requires RowsAreNewest(rs, page, saves) && (Stored(rs, page) == [] ==> saves == [])
    ensures Record(rs, page, save.fields, save.editedBy, save.note, save.createdAt, cap)
         == Prune(rs + [Row(page, saves + [save], |saves| + 1)], page, |saves| + 1, cap)
  {
    NextIsNewest(rs, page, saves);
  }

  lemma AppendKeepsNewest(rs: seq<Revision>, page: Id, saves: seq<Save>, save: Save)
    requires RowsAreNewest(rs, page, saves)
    ensures Stored(rs + [Row(page, saves + [save], |saves| + 1)], page)
         == Newest(page, saves + [save], |Stored(rs, page)| + 1)
  {
    NewestAppend(page, saves, save, |Stored(rs, page)|);
    StoredAppend(rs, Row(page, saves + [save], |saves| + 1), page);
  }

  lemma NewestAppend(page: Id, saves: seq<Save>, save: Save, count: nat)
    requires count <= |saves|
    ensures Newest(page, saves + [save], count + 1)
         == Newest(page, saves, count) + [Row(page, saves + [save], |saves| + 1)]
  {
    assert (saves + [save])[..|saves|] == saves;
  }

  /** Pruning after a save leaves the newest rows of the page, up to the cap. */
  lemma PruneKeepsNewest(rs: seq<Revision>, page: Id, saves: seq<Save>, count: nat, cap: nat)
    requires 1 <= count <= |saves| && Stored(rs, page) == Newest(page, saves, count)
    ensures Stored(Prune(rs, page, |saves|, cap), page) == Newest(page, saves, Kept(count - 1, cap))
  {
    if 0 < cap < |saves| {
      var floor := |saves| - cap;
      StoredAfterDelete(rs, page, floor, page);
      AboveOfNewest(page, saves, count, floor);
      assert Kept(count - 1, cap) == if |saves| - count < floor then |saves| - floor else count;
    } else {
      assert Kept(count - 1, cap) == count;
    }
  }

  // ---------------------------------------------------------------------
  // Runs
  // ---------------------------------------------------------------------

  function Last(saves: seq<Save>): Save
    requires saves != []
  {
    saves[|saves| - 1]
  }

  /** Fields as saved, except that a parent deleted since has become none. */
  function Surviving(f: Fields, pages: Pages): Fields {
    f.(parent := if f.parent.Some? && f.parent.value in pages then f.parent else None)
  }

  predicate LogIsNumbered(s: Store, log: Log) {
    && 1 <= s.nextPage
    && (forall p :: p in log ==> 1 <= p < s.nextPage && log[p] != [])
    && (forall p :: p in log && Last(log[p]).fields.parent.Some? ==> Last(log[p]).fields.parent.value < s.nextPage)
    && (forall p :: p in s.pages ==> p in log)
  }

  predicate RowsAreNewest(rs: seq<Revision>, page: Id, saves: seq<Save>) {
    |Stored(rs, page)| <= |saves| && Stored(rs, page) == Newest(page, saves, |Stored(rs, page)|)
  }

  /** Every page's rows are its newest saves, and only pages have rows. */
  ghost predicate RowsFollowLog(rs: seq<Revision>, pages: set<Id>, log: Log) {
    && (forall p: Id :: RowsAreNewest(rs, p, Saves(log, p)))
    && (forall p: Id :: Stored(rs, p) != [] <==> p in pages)
  }

  /** Every page stands as it was last saved. */
  predicate PagesFollowLog(pages: Pages, log: Log)
    requires forall p :: p in log ==> log[p] != []
  {
    forall p {:trigger pages[p]} :: p in pages ==> p in log && pages[p].fields == Surviving(Last(log[p]).fields, pages)
  }

  ghost predicate Faithful(s: Store, log: Log) {
    LogIsNumbered(s, log) && RowsFollowLog(s.revisions, s.pages.Keys, log) && PagesFollowLog(s.pages, log)
  }

  lemma NoRowsWithoutLog(s: Store, log: Log)
    requires Faithful(s, log)
    ensures Stored(s.revisions, s.nextPage) == [] && Saves(log, s.nextPage) == []
  {
    assert RowsAreNewest(s.revisions, s.nextPage, Saves(log, s.nextPage));
  }

  /** The rows of the saved page, and of any other, after a save. */
  lemma SavedRowsOf(rs: seq<Revision>, page: Id, saves: seq<Save>, save: Save, cap: nat, p: Id, mine: seq<Save>)
    requires RowsAreNewest(rs, page, saves) && (Stored(rs, page) == [] ==> saves == [])
    requires RowsAreNewest(rs, p, mine)
    ensures var after := Record(rs, page, save.fields, save.editedBy, save.note, save.createdAt, cap);
            && RowsAreNewest(after, p, if p == page then saves + [save] else mine)
            && (p == page ==> |Stored(after, p)| == Kept(|Stored(rs, page)|, cap))
            && (p != page ==> Stored(after, p) == Stored(rs, p))
  {
    RecordKeepsNewest(rs, page, saves, save, cap, p);
    NewestNumbers(page, saves + [save], Kept(|Stored(rs, page)|, cap));
  }

  /** What the log says about a page that is there or about to be. */
  lemma RowsBeforeSave(s: Store, log: Log, page: Id) returns (saves: seq<Save>)
    requires Faithful(s, log) && (page in s.pages || page == s.nextPage)
    ensures saves == Saves(log, page) && RowsAreNewest(s.revisions, page, saves)
    ensures Stored(s.revisions, page) == [] ==> saves == []
  {
    NoRowsWithoutLog(s, log);
    saves := Saves(log, page);
  }

  lemma SavedRowsFollow(s: Store, log: Log, page: Id, save: Save, cap: nat) returns (rs: seq<Revision>, after: Log)
    requires Faithful(s, log) && (page in s.pages || page == s.nextPage)
    ensures rs == Record(s.revisions, page, save.fields, save.editedBy, save.note, save.createdAt, cap)
    ensures after == log[page := Saves(log, page) + [save]]
    ensures RowsFollowLog(rs, s.pages.Keys + {page}, after)
    ensures |Stored(rs, page)| == Kept(|Stored(s.revisions, page)|, cap)
    ensures forall p: Id :: p != page ==> Stored(rs, p) == Stored(s.revisions, p)
  {
    var saves := RowsBeforeSave(s, log, page);
    rs := Record(s.revisions, page, save.fields, save.editedBy, save.note, save.createdAt, cap);
    after := log[page := saves + [save]];
    RowsFollowAfterSave(s.revisions, s.pages.Keys, log, page, saves, save, cap, rs, after);
  }

  lemma RowsFollowAfterSave(before: seq<Revision>, pages: set<Id>, log: Log, page: Id, saves: seq<Save>, save: Save,
                            cap: nat, rs: seq<Revision>, after: Log)
    requires RowsFollowLog(before, pages, log)
    requires saves == Saves(log, page) && (Stored(before, page) == [] ==> saves == [])
    requires rs == Record(before, page, save.fields, save.editedBy, save.note, save.createdAt, cap)
    requires after == log[page := saves + [save]]
    ensures RowsFollowLog(rs, pages + {page}, after)
    ensures |Stored(rs, page)| == Kept(|Stored(before, page)|, cap)
    ensures forall p: Id :: p != page ==> Stored(rs, p) == Stored(before, p)
  {
    assert RowsAreNewest(before, page, Saves(log, page));
    forall p: Id
      ensures RowsAreNewest(rs, p, Saves(after, p)) && (Stored(rs, p) != [] <==> p in pages + {page})
      ensures p != page ==> Stored(rs, p) == Stored(before, p)
      ensures p == page ==> |Stored(rs, p)| == Kept(|Stored(before, page)|, cap)
    {
      assert RowsAreNewest(before, p, Saves(log, p));
      SavedRowsOf(before, page, saves, save, cap, p, Saves(log, p));
    }
  }

  /** A save that goes through: the page it takes, and the pages as they stand after it. */
  lemma SaveGoesThrough(s: Store, log: Log, e: Event) returns (page: Id, save: Save)
    requires Faithful(s, log) && SavedBy(s, e).Some?
    ensures SavedBy(s, e) == Some((page, save)) && (e.Created? || e.Edited?)
    ensures page in s.pages || page == s.nextPage
    ensures var s' := Step(s, e);
            && s'.pages.Keys == s.pages.Keys + {page} && 1 <= page < s'.nextPage && s.nextPage <= s'.nextPage
            && s'.revisions == Record(s.revisions, page, save.fields, save.editedBy, save.note, save.createdAt, e.cap)
            && s'.pages[page].fields == save.fields && ParentExists(s.pages, save.fields.parent)
            && (forall p :: p in s.pages && p != page ==> s'.pages[p] == s.pages[p])
  {
    page, save := SavedBy(s, e).value.0, SavedBy(s, e).value.1;
    assert Step(s, e).pages.Keys == s.pages.Keys + {page};
  }

  lemma SaveKeepsPages(s: Store, log: Log, pages: Pages, page: Id, save: Save)
    requires Faithful(s, log) && (page in s.pages || page == s.nextPage)
    requires pages.Keys == s.pages.Keys + {page} && pages[page].fields == save.fields
    requires ParentExists(s.pages, save.fields.parent)
    requires forall p :: p in s.pages && p != page ==> pages[p] == s.pages[p]
    ensures PagesFollowLog(pages, log[page := Saves(log, page) + [save]])
  {
  }

  lemma SaveIsLogged(s: Store, log: Log, e: Event, page: Id, save: Save)
    requires SavedBy(s, e) == Some((page, save))
    ensures StepLog(s, log, e) == log[page := Saves(log, page) + [save]]
  {
  }

  /** The store and the log as a save leaves them. */
  lemma SavedStoreIsFaithful(s: Store, log: Log, page: Id, save: Save, cap: nat, s': Store, after: Log)
    requires Faithful(s, log) && (page in s.pages || page == s.nextPage)
    requires s'.pages.Keys == s.pages.Keys + {page} && 1 <= page < s'.nextPage && s.nextPage <= s'.nextPage
    requires s'.revisions == Record(s.revisions, page, save.fields, save.editedBy, save.note, save.createdAt, cap)
    requires s'.pages[page].fields == save.fields && ParentExists(s.pages, save.fields.parent)
    requires forall p :: p in s.pages && p != page ==> s'.pages[p] == s.pages[p]
    requires after == log[page := Saves(log, page) + [save]]
    ensures Faithful(s', after)
  {
    var rs, log' := SavedRowsFollow(s, log, page, save, cap);
    SaveKeepsPages(s, log, s'.pages, page, save);
    SaveIsNumbered(s, log, s', page, save);
  }

  lemma SaveIsFaithful(s: Store, log: Log, e: Event)
    requires Faithful(s, log) && SavedBy(s, e).Some?
    ensures Faithful(Step(s, e), StepLog(s, log, e))
  {
    var page, save := SaveGoesThrough(s, log, e);
    SaveIsLogged(s, log, e, page, save);
    SavedStoreIsFaithful(s, log, page, save, e.cap, Step(s, e), StepLog(s, log, e));
  }

  lemma SaveIsNumbered(s: Store, log: Log, s': Store, page: Id, save: Save)
    requires LogIsNumbered(s, log) && ParentExists(s.pages, save.fields.parent)
    requires s'.pages.Keys == s.pages.Keys + {page} && 1 <= page < s'.nextPage && s.nextPage <= s'.nextPage
    ensures LogIsNumbered(s', log[page := Saves(log, page) + [save]])
  {
  }

  lemma DeletedRowsFollow(rs: seq<Revision>, pages: set<Id>, log: Log, page: Id)
    requires RowsFollowLog(rs, pages, log)
    ensures RowsFollowLog(DeleteAll(rs, page), pages - {page}, log)
  {
    forall p: Id
      ensures RowsAreNewest(DeleteAll(rs, page), p, Saves(log, p))
      ensures Stored(DeleteAll(rs, page), p) != [] <==> p in pages - {page}
    {
      StoredAfterDeleteAll(rs, page, p);
      assert RowsAreNewest(rs, p, Saves(log, p));
    }
  }

  lemma DeleteIsNumbered(s: Store, log: Log, s': Store, page: Id)
    requires LogIsNumbered(s, log) && s'.pages.Keys == s.pages.Keys - {page} && s'.nextPage == s.nextPage
    ensures LogIsNumbered(s', log)
  {
  }

  /** What a deletion that goes through leaves. */
  lemma DeleteGoesThrough(s: Store, e: Event)
    requires e.Deleted? && Delete(s, e.organization, e.id).1
    ensures var s' := Step(s, e);
            && s'.pages.Keys == s.pages.Keys - {e.id} && s'.nextPage == s.nextPage
            && s'.revisions == DeleteAll(s.revisions, e.id)
            && forall p :: p in s'.pages ==> s'.pages[p] == Orphan(s.pages[p], e.id)
  {
    assert Step(s, e).pages.Keys == s.pages.Keys - {e.id};
  }

  lemma DeleteIsFaithful(s: Store, log: Log, e: Event)
    requires Faithful(s, log) && e.Deleted? && Delete(s, e.organization, e.id).1
    ensures Faithful(Step(s, e), log)
  {
    DeleteGoesThrough(s, e);
    DeletedRowsFollow(s.revisions, s.pages.Keys, log, e.id);
    DeletedPagesFollow(s.pages, log, e.id, Step(s, e).pages);
    DeleteIsNumbered(s, log, Step(s, e), e.id);
  }

  lemma DeletedPagesFollow(pages: Pages, log: Log, page: Id, left: Pages)
    requires (forall p :: p in log ==> log[p] != []) && PagesFollowLog(pages, log)
    requires left.Keys == pages.Keys - {page} && forall p :: p in left ==> left[p] == Orphan(pages[p], page)
    ensures PagesFollowLog(left, log)
  {
  }

  lemma {:induction false} ForgottenSaves(saves: seq<Save>, user: Id)
    ensures var after := ForgetAuthor(saves, user);
            |after| == |saves| && forall i :: 0 <= i < |saves| ==>
              after[i] == saves[i].(editedBy := Without(saves[i].editedBy, user))
  {
    if saves != [] {
      ForgottenSaves(saves[..|saves| - 1], user);
    }
  }

  /** The rows of forgotten saves are the forgotten rows. */
  lemma {:induction false} NewestForgotten(page: Id, saves: seq<Save>, count: nat, user: Id)
    requires count <= |saves|
    ensures |ForgetAuthor(saves, user)| == |saves|
    ensures Newest(page, ForgetAuthor(saves, user), count) == ForgetEditor(Newest(page, saves, count), user)
    decreases count
  {
    ForgottenSaves(saves, user);
    if count > 0 {
      var init := saves[..|saves| - 1];
      var after := ForgetAuthor(saves, user);
      ForgottenSaves(init, user);
      assert after[..|after| - 1] == ForgetAuthor(init, user);
      NewestForgotten(page, init, count - 1, user);
      ForgetAppend(Newest(page, init, count - 1), Row(page, saves, |saves|), user);
    }
  }

  lemma ForgottenRowsAreNewest(rs: seq<Revision>, page: Id, saves: seq<Save>, user: Id)
    requires RowsAreNewest(rs, page, saves)
    ensures RowsAreNewest(ForgetEditor(rs, user), page, ForgetAuthor(saves, user))
    ensures |Stored(ForgetEditor(rs, user), page)| == |Stored(rs, page)|
  {
    StoredAfterForgetting(rs, user, page);
    ForgottenLength(Stored(rs, page), user);
    NewestForgotten(page, saves, |Stored(rs, page)|, user);
  }

  lemma SavesForgotten(log: Log, after: Log, user: Id, page: Id)
    requires after == map p | p in log :: ForgetAuthor(log[p], user)
    ensures Saves(after, page) == ForgetAuthor(Saves(log, page), user)
  {
  }

  lemma ForgottenRowsFollow(rs: seq<Revision>, pages: set<Id>, log: Log, after: Log, user: Id)
    requires RowsFollowLog(rs, pages, log) && after == map p | p in log :: ForgetAuthor(log[p], user)
    ensures RowsFollowLog(ForgetEditor(rs, user), pages, after)
  {
    forall p: Id
      ensures RowsAreNewest(ForgetEditor(rs, user), p, Saves(after, p))
      ensures Stored(ForgetEditor(rs, user), p) != [] <==> p in pages
    {
      assert RowsAreNewest(rs, p, Saves(log, p));
      SavesForgotten(log, after, user, p);
      ForgottenRowsAreNewest(rs, p, Saves(log, p), user);
    }
  }

  /** Deleting an account touches nothing the log's numbers or the fields of the pages say. */
  lemma ForgottenPagesFollow(s: Store, log: Log, s': Store, after: Log, user: Id)
    requires LogIsNumbered(s, log) && PagesFollowLog(s.pages, log)
    requires after == map p | p in log :: ForgetAuthor(log[p], user)
    requires s'.nextPage == s.nextPage && s'.pages.Keys == s.pages.Keys
    requires forall p :: p in s'.pages ==> s'.pages[p].fields == s.pages[p].fields
    ensures LogIsNumbered(s', after) && PagesFollowLog(s'.pages, after)
  {
    forall p | p in log ensures after[p] != [] && Last(after[p]).fields == Last(log[p]).fields {
      ForgottenSaves(log[p], user);
    }
  }

  lemma AccountIsFaithful(s: Store, log: Log, e: Event)
    requires Faithful(s, log) && e.AccountDeleted?
    ensures Faithful(Step(s, e), StepLog(s, log, e))
  {
    var after := StepLog(s, log, e);
    assert Step(s, e).pages.Keys == s.pages.Keys;
    ForgottenRowsFollow(s.revisions, s.pages.Keys, log, after, e.user);
    ForgottenPagesFollow(s, log, Step(s, e), after, e.user);
  }

  lemma StepIsFaithful(s: Store, log: Log, e: Event)
    requires Faithful(s, log)
    ensures Faithful(Step(s, e), StepLog(s, log, e))
  {
    if SavedBy(s, e).Some? {
      SaveIsFaithful(s, log, e);
    } else if e.Deleted? && Delete(s, e.organization, e.id).1 {
      DeleteIsFaithful(s, log, e);
    } else if e.AccountDeleted? {
      AccountIsFaithful(s, log, e);
    } else {
      assert Step(s, e) == s;
    }
  }

  lemma {:induction false} RunIsFaithful(s: Store, log: Log, events: seq<Event>)
    requires Faithful(s, log)
    ensures Faithful(Run(s, events), RunLog(s, log, events))
    decreases |events|
  {
    if events != [] {
      StepIsFaithful(s, log, events[0]);
      RunIsFaithful(Step(s, events[0]), StepLog(s, log, events[0]), events[1..]);
    }
  }

  lemma EmptyIsFaithful()
    ensures Faithful(EMPTY, map[])
  {
  }

  /**
   Over every run, whatever the caps were: a page's stored revisions are a
   contiguous range of numbers that ends at the number of its saves, each row
   is the save of that number in the log, and the newest one is the page as it
   stands, exactly unless the parent it names has been deleted.
   */
  lemma HistoryIsTheNewestSaves(events: seq<Event>, s: Store, log: Log, page: Id)
    requires s == Run(EMPTY, events) && log == RunLog(EMPTY, map[], events) && page in s.pages
    ensures var rows, saves := Stored(s.revisions, page), Saves(log, page);
            && 1 <= |rows| <= |saves|
            && (forall i :: 0 <= i < |rows| ==> rows[i] == Row(page, saves, |saves| - |rows| + i + 1))
            && rows[|rows| - 1].number == |saves|
            && s.pages[page].fields == Surviving(rows[|rows| - 1].fields, s.pages)
            && (s.pages[page].fields == rows[|rows| - 1].fields
                <==> ParentExists(s.pages, rows[|rows| - 1].fields.parent))
  {
    var rows, saves := PageOfRun(events, s, log, page);
    NewestRows(page, rows, saves);
  }

  lemma FirstRevision(rs: seq<Revision>, page: Id, fields: Fields)
    requires Stored(rs, page) == []
    ensures Record(rs, page, fields, None, None, 0, 0) == rs + [Revision(page, 1, fields, None, None, 0)]
  {
    assert MaxNumber(Stored(rs, page)) == 0;
  }

  /** Creating a page in organization 1, without a cap. */
  lemma CreateAppends(s: Store, fields: Fields, e: Event)
    requires e == Created(Some(1), fields, None, None, 0, 0) && Stored(s.revisions, s.nextPage) == []
    requires !SlugIsTaken(s.pages, 1, fields.slug, s.nextPage) && ParentExists(s.pages, fields.parent)
    ensures Step(s, e) == Store(s.pages[s.nextPage := Page(1, fields, None, 0, 0)], s.nextPage + 1,
                                s.revisions + [Revision(s.nextPage, 1, fields, None, None, 0)])
  {
    FirstRevision(s.revisions, s.nextPage, fields);
  }

  lemma OnlyOthersStored(r: Revision, page: Id)
    requires r.page != page
    ensures Stored([r], page) == []
  {
    assert Stored([r][..0], page) == [];
  }

  /** Creates two pages in a row, the second below the first. */
  lemma TwoPages(first: Fields, below: Fields, e1: Event, e2: Event) returns (s: Store)
    requires first.parent == None && below.parent == Some(1) && first.slug != below.slug
    requires e1 == Created(Some(1), first, None, None, 0, 0) && e2 == Created(Some(1), below, None, None, 0, 0)
    ensures s == Step(Step(EMPTY, e1), e2)
    ensures s.pages == map[1 := Page(1, first, None, 0, 0), 2 := Page(1, below, None, 0, 0)]
    ensures s.revisions == [Revision(1, 1, first, None, None, 0), Revision(2, 1, below, None, None, 0)]
  {
    CreateAppends(EMPTY, first, e1);
    var r1 := Revision(1, 1, first, None, None, 0);
    var s1 := Store(map[1 := Page(1, first, None, 0, 0)], 2, [r1]);
    assert [] + [r1] == [r1] && Step(EMPTY, e1) == s1;
    OnlyOthersStored(r1, 2);
    CreateAppends(s1, below, e2);
    s := Step(s1, e2);
  }

  lemma DeleteFirstOfTwo(rs: seq<Revision>)
    requires |rs| == 2 && rs[0].page == 1 && rs[1].page == 2
    ensures DeleteAll(rs, 1) == [rs[1]] && Stored([rs[1]], 2) == [rs[1]]
  {
    var init := rs[..1];
    assert init[..0] == [] && DeleteAll(init[..0], 1) == [];
    assert DeleteAll(init, 1) == [];
    assert Stored([rs[1]][..0], 2) == [];
  }

  lemma RunOfThree(s: Store, a: Event, b: Event, c: Event, after: Store)
    requires after == Run(s, [a, b, c])
    ensures after == Step(Step(Step(s, a), b), c)
  {
    assert [a, b, c][1..] == [b, c] && [b, c][1..] == [c] && [c][1..] == [];
    assert Run(Step(Step(s, a), b), [c]) == Step(Step(Step(s, a), b), c);
    assert Run(Step(s, a), [b, c]) == Step(Step(Step(s, a), b), c);
  }

  /**
   Whatever two pages are created, the second below the first: when the first
   is deleted, the only revision of the second still names its parent, and the
   page does not.
   */
  lemma DeletedParentLeavesNoRevision(first: Fields, below: Fields, s: Store)
    requires first.parent == None && below.parent == Some(1) && first.slug != below.slug
    requires s == Run(EMPTY, [Created(Some(1), first, None, None, 0, 0), Created(Some(1), below, None, None, 0, 0),
                              Deleted(Some(1), 1)])
    ensures s.pages.Keys == {2} && s.pages[2].fields == below.(parent := None)
    ensures Stored(s.revisions, 2) == [Revision(2, 1, below, None, None, 0)]
  {
    var e1, e2 := Created(Some(1), first, None, None, 0, 0), Created(Some(1), below, None, None, 0, 0);
    var e3 := Deleted(Some(1), 1);
    RunOfThree(EMPTY, e1, e2, e3, s);
    var before := TwoPages(first, below, e1, e2);
    ParentGone(before, e3, s);
    DeleteFirstOfTwo(before.revisions);
  }

  lemma ParentGone(before: Store, e: Event, s: Store)
    requires e == Deleted(Some(1), 1) && s == Step(before, e)
    requires before.pages.Keys == {1, 2} && before.pages[1].organization == 1
    requires before.pages[2].fields.parent == Some(1)
    ensures s.pages.Keys == {2} && s.pages[2].fields == before.pages[2].fields.(parent := None)
    ensures s.revisions == DeleteAll(before.revisions, 1)
  {
    assert Delete(before, Some(1), 1) == (s, true);
    assert 2 in s.pages && s.pages[2] == Orphan(before.pages[2], 1);
  }

  lemma PageOfRun(events: seq<Event>, s: Store, log: Log, page: Id) returns (rows: seq<Revision>, saves: seq<Save>)
    requires s == Run(EMPTY, events) && log == RunLog(EMPTY, map[], events) && page in s.pages
    ensures rows == Stored(s.revisions, page) && saves == Saves(log, page)
    ensures rows != [] && |rows| <= |saves| && rows == Newest(page, saves, |rows|)
    ensures s.pages[page].fields == Surviving(Last(saves).fields, s.pages)
  {
    EmptyIsFaithful();
    RunIsFaithful(EMPTY, map[], events);
    PageIsFaithful(s, log, page);
    rows, saves := Stored(s.revisions, page), Saves(log, page);
  }

  lemma PageIsFaithful(s: Store, log: Log, page: Id)
    requires Faithful(s, log) && page in s.pages
    ensures RowsAreNewest(s.revisions, page, Saves(log, page)) && Stored(s.revisions, page) != []
    ensures Saves(log, page) != [] && s.pages[page].fields == Surviving(Last(Saves(log, page)).fields, s.pages)
  {
  }

  lemma NewestRows(page: Id, rows: seq<Revision>, saves: seq<Save>)
    requires rows != [] && |rows| <= |saves| && rows == Newest(page, saves, |rows|)
    ensures forall i :: 0 <= i < |rows| ==> rows[i] == Row(page, saves, |saves| - |rows| + i + 1)
    ensures rows[|rows| - 1].number == |saves| && rows[|rows| - 1].fields == Last(saves).fields
  {
    NewestNumbers(page, saves, |rows|);
    assert rows[|rows| - 1] == Row(page, saves, |saves|);
  }

  /** Deleted pages leave no history, and no page without saves has any. */
  lemma OnlyPagesHaveHistory(events: seq<Event>, page: Id)
    ensures Stored(Run(EMPTY, events).revisions, page) != [] <==> page in Run(EMPTY, events).pages
  {
    EmptyIsFaithful();
    RunIsFaithful(EMPTY, map[], events);
  }

  /** The number a save takes is one more than the saves before it: numbers are never used twice. */
  lemma NumbersAreNeverReused(events: seq<Event>, s: Store, log: Log, e: Event)
    requires s == Run(EMPTY, events) && log == RunLog(EMPTY, map[], events) && SavedBy(s, e).Some?
    ensures NextNumber(s.revisions, SavedBy(s, e).value.0) == |Saves(log, SavedBy(s, e).value.0)| + 1
  {
    EmptyIsFaithful();
    RunIsFaithful(EMPTY, map[], events);
    var page, save := SaveGoesThrough(s, log, e);
    NoRowsWithoutLog(s, log);
    assert RowsAreNewest(s.revisions, page, Saves(log, page));
    NextIsNewest(s.revisions, page, Saves(log, page));
  }

  /** Who is left of an author after a run: nobody, exactly if the run deletes the account. */
  function Cleared(who: Option<Id>, events: seq<Event>): Option<Id> {
    if who.Some? && AccountDeleted(who.value) in events then None else who
  }

  lemma ClearedHead(who: Option<Id>, events: seq<Event>)
    requires events != []
    ensures Cleared(who, events)
         == Cleared(if events[0].AccountDeleted? then Without(who, events[0].user) else who, events[1..])
  {
    assert forall e :: e in events <==> e == events[0] || e in events[1..];
  }

  /** One event adds to the log at most, and clears the author of a deleted account. */
  lemma StepGrowsLog(s: Store, log: Log, e: Event, page: Id, i: nat)
    requires i < |Saves(log, page)|
    ensures var before, after := Saves(log, page), Saves(StepLog(s, log, e), page);
            i < |after| && after[i] == before[i].(
              editedBy := if e.AccountDeleted? then Without(before[i].editedBy, e.user) else before[i].editedBy)
  {
    if e.AccountDeleted? {
      SavesForgotten(log, StepLog(s, log, e), e.user, page);
      ForgottenSaves(Saves(log, page), e.user);
    }
  }

  /** The log only grows; of a save in it, a run clears the author exactly if it deletes the account. */
  lemma {:induction false} LogOnlyGrows(s: Store, log: Log, events: seq<Event>, page: Id, i: nat)
    requires i < |Saves(log, page)|
    ensures var before, after := Saves(log, page), Saves(RunLog(s, log, events), page);
            i < |after| && after[i] == before[i].(editedBy := Cleared(before[i].editedBy, events))
    decreases |events|
  {
    if events != [] {
      StepGrowsLog(s, log, events[0], page, i);
      ClearedHead(Saves(log, page)[i].editedBy, events);
      LogOnlyGrows(Step(s, events[0]), StepLog(s, log, events[0]), events[1..], page, i);
    }
  }

  /** Which save a stored row is. */
  lemma RowIsSave(s: Store, log: Log, page: Id, i: nat) returns (k: nat)
    requires Faithful(s, log) && i < |Stored(s.revisions, page)|
    ensures 1 <= k <= |Saves(log, page)| && Stored(s.revisions, page)[i] == Row(page, Saves(log, page), k)
  {
    assert RowsAreNewest(s.revisions, page, Saves(log, page));
    k := RowOfNewest(page, Saves(log, page), Stored(s.revisions, page), i);
  }

  lemma RowOfNewest(page: Id, saves: seq<Save>, rows: seq<Revision>, i: nat) returns (k: nat)
    requires |rows| <= |saves| && rows == Newest(page, saves, |rows|) && i < |rows|
    ensures 1 <= k <= |saves| && rows[i] == Row(page, saves, k)
  {
    NewestNumbers(page, saves, |rows|);
    k := |saves| - |rows| + i + 1;
  }

  /** A row of a save, and the row of the same number when the log has grown. */
  lemma SameNumberSameRow(s: Store, log: Log, events: seq<Event>, page: Id, k: nat, l: nat, saves: seq<Save>)
    requires 1 <= k <= |Saves(log, page)| && saves == Saves(RunLog(s, log, events), page) && 1 <= l <= |saves|
    requires Row(page, Saves(log, page), k).number == Row(page, saves, l).number
    ensures var before := Row(page, Saves(log, page), k);
            Row(page, saves, l) == before.(editedBy := Cleared(before.editedBy, events))
  {
    LogOnlyGrows(s, log, events, page, k - 1);
  }

  /**
   A snapshot that is still stored after further events is what it was,
   without its editor exactly if the events delete the editor's account.
   */
  lemma RetainedSnapshotsNeverChange(s: Store, log: Log, events: seq<Event>, s': Store, page: Id, i: nat, j: nat)
    requires Faithful(s, log) && s' == Run(s, events)
    requires i < |Stored(s.revisions, page)| && j < |Stored(s'.revisions, page)|
    requires Stored(s.revisions, page)[i].number == Stored(s'.revisions, page)[j].number
    ensures var before := Stored(s.revisions, page)[i];
            Stored(s'.revisions, page)[j] == before.(editedBy := Cleared(before.editedBy, events))
  {
    RunIsFaithful(s, log, events);
    var log' := RunLog(s, log, events);
    var k := RowIsSave(s, log, page, i);
    var l := RowIsSave(s', log', page, j);
    SameNumberSameRow(s, log, events, page, k, l, Saves(log', page));
  }

  // ---------------------------------------------------------------------
  // How many revisions are kept
  // ---------------------------------------------------------------------

  predicate SavesUnder(e: Event, cap: nat) {
    match e
    case Created(_, _, _, _, _, c) => c == cap
    case Edited(_, _, _, _, c) => c == cap
    case _ => true
  }

  function Least(a: nat, b: nat): nat {
    if a <= b then a else b
  }

  ghost predicate KeepsCap(rs: seq<Revision>, pages: set<Id>, log: Log, cap: nat) {
    forall p :: p in pages ==>
      |Stored(rs, p)| == if cap == 0 then |Saves(log, p)| else Least(|Saves(log, p)|, cap)
  }

  lemma SavedRowsKeepCap(rs: seq<Revision>, pages: set<Id>, log: Log, cap: nat, page: Id, save: Save,
                         rs': seq<Revision>)
    requires KeepsCap(rs, pages, log, cap)
    requires page !in pages ==> Stored(rs, page) == [] && Saves(log, page) == []
    requires |Stored(rs', page)| == Kept(|Stored(rs, page)|, cap)
    requires forall p: Id :: p != page ==> Stored(rs', p) == Stored(rs, p)
    ensures KeepsCap(rs', pages + {page}, log[page := Saves(log, page) + [save]], cap)
  {
  }

  lemma DeletedRowsKeepCap(rs: seq<Revision>, pages: set<Id>, log: Log, cap: nat, page: Id)
    requires KeepsCap(rs, pages, log, cap)
    ensures KeepsCap(DeleteAll(rs, page), pages - {page}, log, cap)
  {
    forall p | p in pages - {page} ensures Stored(DeleteAll(rs, page), p) == Stored(rs, p) {
      StoredAfterDeleteAll(rs, page, p);
    }
  }

  lemma CountsOfSave(s: Store, log: Log, page: Id, save: Save, cap: nat, rs: seq<Revision>)
    requires Faithful(s, log) && (page in s.pages || page == s.nextPage)
    requires rs == Record(s.revisions, page, save.fields, save.editedBy, save.note, save.createdAt, cap)
    ensures page !in s.pages ==> Stored(s.revisions, page) == [] && Saves(log, page) == []
    ensures |Stored(rs, page)| == Kept(|Stored(s.revisions, page)|, cap)
    ensures forall p: Id :: p != page ==> Stored(rs, p) == Stored(s.revisions, p)
  {
    var rs', after := SavedRowsFollow(s, log, page, save, cap);
    if page !in s.pages {
      NoRowsWithoutLog(s, log);
    }
  }

  /** A save, as far as the counts of the pages go. */
  lemma SaveCounts(s: Store, log: Log, e: Event) returns (page: Id, save: Save)
    requires Faithful(s, log) && SavedBy(s, e).Some?
    ensures Step(s, e).pages.Keys == s.pages.Keys + {page}
    ensures StepLog(s, log, e) == log[page := Saves(log, page) + [save]]
    ensures page !in s.pages ==> Stored(s.revisions, page) == [] && Saves(log, page) == []
    ensures |Stored(Step(s, e).revisions, page)| == Kept(|Stored(s.revisions, page)|, e.cap)
    ensures forall p: Id :: p != page ==> Stored(Step(s, e).revisions, p) == Stored(s.revisions, p)
  {
    page, save := SaveGoesThrough(s, log, e);
    SaveIsLogged(s, log, e, page, save);
    CountsOfSave(s, log, page, save, e.cap, Step(s, e).revisions);
  }

  lemma ForgottenRowsKeepCap(rs: seq<Revision>, pages: set<Id>, log: Log, cap: nat, after: Log, user: Id)
    requires KeepsCap(rs, pages, log, cap) && after == map p | p in log :: ForgetAuthor(log[p], user)
    ensures KeepsCap(ForgetEditor(rs, user), pages, after, cap)
  {
    forall p | p in pages
      ensures |Stored(ForgetEditor(rs, user), p)| == |Stored(rs, p)| && |Saves(after, p)| == |Saves(log, p)|
    {
      StoredAfterForgetting(rs, user, p);
      ForgottenLength(Stored(rs, p), user);
      SavesForgotten(log, after, user, p);
      ForgottenSaves(Saves(log, p), user);
    }
  }

  lemma StepKeepsCap(s: Store, log: Log, e: Event, cap: nat)
    requires Faithful(s, log) && KeepsCap(s.revisions, s.pages.Keys, log, cap) && SavesUnder(e, cap)
    ensures KeepsCap(Step(s, e).revisions, Step(s, e).pages.Keys, StepLog(s, log, e), cap)
  {
    if SavedBy(s, e).Some? {
      var page, save := SaveCounts(s, log, e);
      SavedRowsKeepCap(s.revisions, s.pages.Keys, log, cap, page, save, Step(s, e).revisions);
    } else if e.Deleted? && Delete(s, e.organization, e.id).1 {
      DeletedRowsKeepCap(s.revisions, s.pages.Keys, log, cap, e.id);
      assert Step(s, e).pages.Keys == s.pages.Keys - {e.id};
    } else if e.AccountDeleted? {
      ForgottenRowsKeepCap(s.revisions, s.pages.Keys, log, cap, StepLog(s, log, e), e.user);
      assert Step(s, e).pages.Keys == s.pages.Keys;
    } else {
      assert Step(s, e) == s;
    }
  }

  lemma {:induction false} RunKeepsCap(s: Store, log: Log, events: seq<Event>, cap: nat)
    requires Faithful(s, log) && KeepsCap(s.revisions, s.pages.Keys, log, cap)
    requires forall i :: 0 <= i < |events| ==> SavesUnder(events[i], cap)
    ensures KeepsCap(Run(s, events).revisions, Run(s, events).pages.Keys, RunLog(s, log, events), cap)
    decreases |events|
  {
    if events != [] {
      StepIsFaithful(s, log, events[0]);
      StepKeepsCap(s, log, events[0], cap);
      RunKeepsCap(Step(s, events[0]), StepLog(s, log, events[0]), events[1..], cap);
    }
  }

  /** Under one fixed cap, a page keeps as many revisions as it has saves, at most the cap; zero keeps all. */
  lemma FixedCapCount(events: seq<Event>, cap: nat, s: Store, log: Log, page: Id)
    requires forall i :: 0 <= i < |events| ==> SavesUnder(events[i], cap)
    requires s == Run(EMPTY, events) && log == RunLog(EMPTY, map[], events) && page in s.pages
    ensures |Stored(s.revisions, page)| == if cap == 0 then |Saves(log, page)| else Least(|Saves(log, page)|, cap)
  {
    EmptyIsFaithful();
    RunKeepsCap(EMPTY, map[], events, cap);
  }

  /** Under changing caps, each save leaves at most its own cap, and never drops more than the cap asks for. */
  lemma SaveObeysItsCap(events: seq<Event>, s: Store, e: Event)
    requires s == Run(EMPTY, events) && SavedBy(s, e).Some?
    ensures var page := SavedBy(s, e).value.0;
            |Stored(Step(s, e).revisions, page)| == Kept(|Stored(s.revisions, page)|, e.cap)
  {
    EmptyIsFaithful();
    RunIsFaithful(EMPTY, map[], events);
    var log := RunLog(EMPTY, map[], events);
    var page, save := SaveGoesThrough(s, log, e);
    var rs, after := SavedRowsFollow(s, log, page, save, e.cap);
  }

  // ---------------------------------------------------------------------
  // What every run keeps of the pages themselves
  // ---------------------------------------------------------------------

  /** Slugs tell the pages of an organization apart, and parents are pages. */
  predicate Consistent(s: Store) {
    && (forall p :: p in s.pages ==> p < s.nextPage)
    && (forall p, q :: p in s.pages && q in s.pages && p != q && s.pages[p].organization == s.pages[q].organization ==>
          s.pages[p].fields.slug != s.pages[q].fields.slug)
    && (forall p :: p in s.pages ==> ParentExists(s.pages, s.pages[p].fields.parent))
  }

  lemma StepKeepsConsistent(s: Store, e: Event)
    requires Consistent(s)
    ensures Consistent(Step(s, e))
  {
    match e
    case Created(organization, fields, author, note, now, cap) =>
    case Edited(organization, id, update, now, cap) =>
    case Deleted(organization, id) =>
    case AccountDeleted(user) =>
  }

  /** Over every run slugs stay unique within an organization, and every parent is a page. */
  lemma {:induction false} PagesStayConsistent(s: Store, events: seq<Event>)
    requires Consistent(s)
    ensures Consistent(Run(s, events))
    decreases |events|
  {
    if events != [] {
      StepKeepsConsistent(s, events[0]);
      PagesStayConsistent(Step(s, events[0]), events[1..]);
    }
  }

  /** The event names the page, or deletes its parent. */
  predicate Concerns(e: Event, p: Id, parent: Option<Id>) {
    match e
    case Edited(_, id, _, _, _) => id == p
    case Deleted(_, id) => id == p || parent == Some(id)
    case _ => false
  }

  /** An edit that goes through replaces its page and records one revision. */
  lemma EditLeavesOthers(s: Store, organization: Option<Id>, id: Id, update: Update, now: Time, cap: nat, p: Id)
    requires p in s.pages && p != id
    ensures var s' := Edit(s, organization, id, update, now, cap).0;
            p in s'.pages && s'.pages[p] == s.pages[p] && Stored(s'.revisions, p) == Stored(s.revisions, p)
  {
    if FindById(s.pages, organization, id).Some? {
      var fields := update.Saved(s.pages[id].fields);
      RecordLeavesOthers(s.revisions, id, fields, update.editedBy, update.note, now, cap, p);
    }
  }

  lemma CreateLeavesOthers(s: Store, organization: Option<Id>, fields: Fields, author: Option<Id>, note: Option<string>,
                           now: Time, cap: nat, p: Id)
    requires p in s.pages && p != s.nextPage
    ensures var s' := Create(s, organization, fields, author, note, now, cap).0;
            p in s'.pages && s'.pages[p] == s.pages[p] && Stored(s'.revisions, p) == Stored(s.revisions, p)
  {
    RecordLeavesOthers(s.revisions, s.nextPage, fields, author, note, now, cap, p);
  }

  lemma DeleteLeavesOthers(s: Store, organization: Option<Id>, id: Id, p: Id)
    requires p in s.pages && p != id && s.pages[p].fields.parent != Some(id)
    ensures var s' := Delete(s, organization, id).0;
            p in s'.pages && s'.pages[p] == s.pages[p] && Stored(s'.revisions, p) == Stored(s.revisions, p)
  {
    StoredAfterDeleteAll(s.revisions, id, p);
  }

  /** A page and its rows as an event that does not concern it leaves them. */
  function PageAfter(page: Page, e: Event): Page {
    if e.AccountDeleted? then page.(createdBy := Without(page.createdBy, e.user)) else page
  }

  function RowsAfter(rows: seq<Revision>, e: Event): seq<Revision> {
    if e.AccountDeleted? then ForgetEditor(rows, e.user) else rows
  }

  lemma OtherPageStands(s: Store, e: Event, p: Id)
    requires Consistent(s) && p in s.pages && !Concerns(e, p, s.pages[p].fields.parent)
    ensures p in Step(s, e).pages && Step(s, e).pages[p] == PageAfter(s.pages[p], e)
    ensures Stored(Step(s, e).revisions, p) == RowsAfter(Stored(s.revisions, p), e)
  {
    match e
    case Created(organization, fields, author, note, now, cap) =>
      CreateLeavesOthers(s, organization, fields, author, note, now, cap, p);
    case Edited(organization, id, update, now, cap) => EditLeavesOthers(s, organization, id, update, now, cap, p);
    case Deleted(organization, id) => DeleteLeavesOthers(s, organization, id, p);
    case AccountDeleted(user) => StoredAfterForgetting(s.revisions, user, p);
  }

  /** The rows of a page, their editors cleared by a run. */
  ghost predicate RowsCleared(before: seq<Revision>, after: seq<Revision>, events: seq<Event>) {
    |after| == |before| && forall i :: 0 <= i < |before| ==>
      after[i] == before[i].(editedBy := Cleared(before[i].editedBy, events))
  }

  lemma RowsClearedHead(before: seq<Revision>, after: seq<Revision>, events: seq<Event>)
    requires events != [] && RowsCleared(RowsAfter(before, events[0]), after, events[1..])
    ensures RowsCleared(before, after, events)
  {
    var e := events[0];
    if e.AccountDeleted? {
      ForgottenLength(before, e.user);
    }
    forall i | 0 <= i < |before| ensures after[i] == before[i].(editedBy := Cleared(before[i].editedBy, events)) {
      ClearedHead(before[i].editedBy, events);
      if e.AccountDeleted? {
        ForgottenAt(before, e.user, i);
      }
    }
  }

  /**
   Such a page stands as it stood, and so does its history; the creator and
   the editors are cleared exactly if the run deletes their accounts.
   */
  lemma {:induction false} OtherPagesStand(s: Store, events: seq<Event>, p: Id)
    requires Consistent(s) && p in s.pages
    requires forall i :: 0 <= i < |events| ==> !Concerns(events[i], p, s.pages[p].fields.parent)
    ensures p in Run(s, events).pages
    ensures Run(s, events).pages[p] == s.pages[p].(createdBy := Cleared(s.pages[p].createdBy, events))
    ensures RowsCleared(Stored(s.revisions, p), Stored(Run(s, events).revisions, p), events)
    decreases |events|
  {
    if events != [] {
      StepKeepsConsistent(s, events[0]);
      OtherPageStands(s, events[0], p);
      OtherPagesStand(Step(s, events[0]), events[1..], p);
      ClearedHead(s.pages[p].createdBy, events);
      RowsClearedHead(Stored(s.revisions, p), Stored(Run(s, events).revisions, p), events);
    }
  }
}
