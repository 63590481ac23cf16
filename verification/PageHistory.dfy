/**
 Pages and their revisions, src/db.rs: every save appends a numbered snapshot
 and prunes the oldest ones, inside one transaction. Saves are sequential.
 */
module PageHistory {
  import opened Common

  type Id = int
  type Time = int

  /** The editable fields of a page, which are what a revision snapshots. */
  datatype Fields = Fields(
    slug: string, title: string, content: string, markdown: bool,
    parent: Option<Id>, position: int,
    metaTitle: Option<string>, metaDescription: Option<string>, ogImage: Option<string>,
    published: bool, publishAt: Option<Time>)

  datatype Page = Page(organization: Id, fields: Fields, createdBy: Option<Id>, createdAt: Time, updatedAt: Time)

  datatype Revision = Revision(
    page: Id, number: int, fields: Fields, editedBy: Option<Id>, note: Option<string>, createdAt: Time)

  type Pages = map<Id, Page>

  datatype Store = Store(pages: Pages, nextPage: Id, revisions: seq<Revision>)

  /** An edit form; without a slug the page keeps its own. */
  datatype Update = Update(slug: Option<string>, fields: Fields, editedBy: Option<Id>, note: Option<string>)
  {
    function Saved(current: Fields): Fields {
      fields.(slug := if slug.Some? then slug.value else current.slug)
    }
  }

  datatype Error = Duplicate | Internal

  // ---------------------------------------------------------------------
  // The statements
  // ---------------------------------------------------------------------

  /** The revisions of one page, oldest first. */
  function Stored(rs: seq<Revision>, page: Id): seq<Revision> {
    if rs == [] then []
    else
      var last := rs[|rs| - 1];
      Stored(rs[..|rs| - 1], page) + if last.page == page then [last] else []
  }

  /** The rows a `DELETE` of one page's revisions up to `floor` leaves. */
  function DeleteUpTo(rs: seq<Revision>, page: Id, floor: int): seq<Revision> {
    if rs == [] then []
    else
      var last := rs[|rs| - 1];
      DeleteUpTo(rs[..|rs| - 1], page, floor) + if last.page == page && last.number <= floor then [] else [last]
  }

  function DeleteAll(rs: seq<Revision>, page: Id): seq<Revision> {
    if rs == [] then []
    else
      var last := rs[|rs| - 1];
      DeleteAll(rs[..|rs| - 1], page) + if last.page == page then [] else [last]
  }

  /** `COALESCE(MAX(revision), 0)`. */
  function MaxNumber(rs: seq<Revision>): int {
    if rs == [] then 0
    else
      var last := rs[|rs| - 1].number;
      if |rs| == 1 || MaxNumber(rs[..|rs| - 1]) < last then last else MaxNumber(rs[..|rs| - 1])
  }

  /** The largest number in the rows, zero if there are none. */
  lemma {:induction false} MaxNumberIsMax(rs: seq<Revision>)
    ensures rs == [] ==> MaxNumber(rs) == 0
    ensures rs != [] ==> exists i :: 0 <= i < |rs| && rs[i].number == MaxNumber(rs)
    ensures forall i :: 0 <= i < |rs| ==> rs[i].number <= MaxNumber(rs)
  {
    if rs != [] {
      var init := rs[..|rs| - 1];
      MaxNumberIsMax(init);
      if init != [] {
        var i :| 0 <= i < |init| && init[i].number == MaxNumber(init);
        assert rs[i].number == MaxNumber(init) && rs[|rs| - 1].number <= MaxNumber(rs);
      }
      forall i | 0 <= i < |rs| ensures rs[i].number <= MaxNumber(rs) {
        if i < |init| {
          assert init[i] == rs[i];
        }
      }
    }
  }

  function NextNumber(rs: seq<Revision>, page: Id): int {
    MaxNumber(Stored(rs, page)) + 1
  }

  function Prune(rs: seq<Revision>, page: Id, number: int, cap: nat): seq<Revision> {
    if cap == 0 || number - cap <= 0 then rs else DeleteUpTo(rs, page, number - cap)
  }

  function Record(rs: seq<Revision>, page: Id, fields: Fields, author: Option<Id>, note: Option<string>,
                  now: Time, cap: nat): seq<Revision>
  {
    var number := NextNumber(rs, page);
    Prune(rs + [Revision(page, number, fields, author, note, now)], page, number, cap)
  }

  /** What the schema refuses: a slug taken in the organization, or a parent that is no page. */
  predicate SlugIsTaken(pages: Pages, organization: Id, slug: string, page: Id) {
    exists id :: id in pages && id != page && pages[id].organization == organization && pages[id].fields.slug == slug
  }

  predicate ParentExists(pages: Pages, parent: Option<Id>) {
    parent.Some? ==> parent.value in pages
  }

  function Create(s: Store, organization: Option<Id>, fields: Fields, author: Option<Id>, note: Option<string>,
                  now: Time, cap: nat): (Store, Result<Id, Error>)
  {
    if organization.None? then (s, Err(Internal))
    else if SlugIsTaken(s.pages, organization.value, fields.slug, s.nextPage) then (s, Err(Duplicate))
    else if !ParentExists(s.pages, fields.parent) then (s, Err(Internal))
    else
      var id := s.nextPage;
      (Store(s.pages[id := Page(organization.value, fields, author, now, now)], id + 1,
             Record(s.revisions, id, fields, author, note, now, cap)),
       Ok(id))
  }

  function FindById(pages: Pages, organization: Option<Id>, id: Id): Option<Page> {
    if id in pages && organization == Some(pages[id].organization) then Some(pages[id]) else None
  }

  function Edit(s: Store, organization: Option<Id>, id: Id, update: Update, now: Time, cap: nat)
    : (Store, Result<Option<Page>, Error>)
  {
    match FindById(s.pages, organization, id)
    case None => (s, Ok(None))
    case Some(current) =>
      var fields := update.Saved(current.fields);
      if SlugIsTaken(s.pages, current.organization, fields.slug, id) then (s, Err(Duplicate))
      else if !ParentExists(s.pages, fields.parent) then (s, Err(Internal))
      else
        var page := current.(fields := fields, updatedAt := now);
        (s.(pages := s.pages[id := page],
            revisions := Record(s.revisions, id, fields, update.editedBy, update.note, now, cap)),
         Ok(Some(page)))
  }

  /** Deleting a page takes its revisions along and moves its children to the top level. */
  function Orphan(p: Page, gone: Id): Page {
    if p.fields.parent == Some(gone) then p.(fields := p.fields.(parent := None)) else p
  }

  function Delete(s: Store, organization: Option<Id>, id: Id): (Store, bool) {
    if FindById(s.pages, organization, id).None? then (s, false)
    else
      (s.(pages := map i | i in s.pages && i != id :: Orphan(s.pages[i], id),
          revisions := DeleteAll(s.revisions, id)),
       true)
  }

  function Without(who: Option<Id>, user: Id): Option<Id> {
    if who == Some(user) then None else who
  }

  function ForgetEditor(rs: seq<Revision>, user: Id): seq<Revision> {
    if rs == [] then []
    else
      var last := rs[|rs| - 1];
      ForgetEditor(rs[..|rs| - 1], user) + [last.(editedBy := Without(last.editedBy, user))]
  }

  /** What the schema does when an account is deleted: the links to it become null. */
  function ForgetUser(s: Store, user: Id): Store {
    s.(pages := map i | i in s.pages :: s.pages[i].(createdBy := Without(s.pages[i].createdBy, user)),
       revisions := ForgetEditor(s.revisions, user))
  }

  /** A page holds what a form says: every field, and the slug the form has or else the one the page had. */
  predicate Holds(f: Fields, form: Fields, slug: string) {
    && f.slug == slug && f.title == form.title && f.content == form.content && f.markdown == form.markdown
    && f.parent == form.parent && f.position == form.position
    && f.metaTitle == form.metaTitle && f.metaDescription == form.metaDescription && f.ogImage == form.ogImage
    && f.published == form.published && f.publishAt == form.publishAt
  }

  class PageRepository {
    var pages: Pages
    var nextPage: Id
    var revisions: seq<Revision>
    const maxRevisions: nat

    ghost function Contents(): Store
      reads this
    {
      Store(pages, nextPage, revisions)
    }

    /** A repository over what is stored, with the cap it was configured with. */
    constructor (stored: Store, maxRevisions: nat)
      ensures Contents() == stored && this.maxRevisions == maxRevisions
    {
      pages, nextPage, revisions := stored.pages, stored.nextPage, stored.revisions;
      this.maxRevisions := maxRevisions;
    }

    method RecordRevision(page: Id, fields: Fields, editedBy: Option<Id>, note: Option<string>, now: Time)
      returns (number: int)
      modifies this`revisions
      ensures number == NextNumber(old(revisions), page)
      ensures revisions == old(revisions) + [Revision(page, number, fields, editedBy, note, now)]
    {
      number := MaxNumber(Stored(revisions, page)) + 1;
      revisions := revisions + [Revision(page, number, fields, editedBy, note, now)];
    }

    method PruneRevisions(page: Id, number: int)
      modifies this`revisions
      ensures revisions == Prune(old(revisions), page, number, maxRevisions)
    {
      if maxRevisions == 0 {
        return;
      }
      var floor := number - maxRevisions;
      if floor > 0 {
        revisions := DeleteUpTo(revisions, page, floor);
      }
    }

    method CreatePage(organization: Option<Id>, fields: Fields, createdBy: Option<Id>, note: Option<string>, now: Time)
      returns (r: Result<Id, Error>)
      modifies this
      ensures (Contents(), r) == Create(old(Contents()), organization, fields, createdBy, note, now, maxRevisions)
      ensures r.Err? ==> Contents() == old(Contents())
      ensures r.Ok? ==>
                && r.value == old(nextPage) && nextPage == old(nextPage) + 1
                && organization.Some?
                && pages == old(pages)[r.value := Page(organization.value, fields, createdBy, now, now)]
      ensures r.Ok? <==>
                && organization.Some? && (fields.parent.Some? ==> fields.parent.value in old(pages))
                && !exists p :: p in old(pages) && p != old(nextPage) && old(pages)[p].fields.slug == fields.slug
                             && old(pages)[p].organization == organization.value
    {
      if organization.None? {
        return Err(Internal);
      }
      if SlugIsTaken(pages, organization.value, fields.slug, nextPage) {
        return Err(Duplicate);
      }
      if !ParentExists(pages, fields.parent) {
        return Err(Internal);
      }
      var id := nextPage;
      pages := pages[id := Page(organization.value, fields, createdBy, now, now)];
      nextPage := nextPage + 1;
      var number := RecordRevision(id, fields, createdBy, note, now);
      PruneRevisions(id, number);
      r := Ok(id);
    }

    method UpdatePage(organization: Option<Id>, id: Id, update: Update, now: Time)
      returns (r: Result<Option<Page>, Error>)
      modifies this
      ensures (Contents(), r) == Edit(old(Contents()), organization, id, update, now, maxRevisions)
      ensures r == Ok(None) <==> !(id in old(pages) && organization == Some(old(pages)[id].organization))
      ensures (r.Err? || r == Ok(None)) ==> Contents() == old(Contents())
      ensures r.Ok? && r.value.Some? ==>
                && pages == old(pages)[id := r.value.value] && nextPage == old(nextPage)
                && r.value.value.updatedAt == now
                && r.value.value.organization == old(pages)[id].organization
                && r.value.value.createdBy == old(pages)[id].createdBy
                && r.value.value.createdAt == old(pages)[id].createdAt
                && Holds(r.value.value.fields, update.fields,
                         match update.slug case Some(slug) => slug case None => old(pages)[id].fields.slug)
    {
      var current := FindById(pages, organization, id);
      if current.None? {
        return Ok(None);
      }
      var fields := update.fields.(slug := if update.slug.Some? then update.slug.value else current.value.fields.slug);
      if SlugIsTaken(pages, current.value.organization, fields.slug, id) {
        return Err(Duplicate);
      }
      if !ParentExists(pages, fields.parent) {
        return Err(Internal);
      }
      pages := pages[id := current.value.(fields := fields, updatedAt := now)];
      var number := RecordRevision(id, fields, update.editedBy, update.note, now);
      PruneRevisions(id, number);
      r := Ok(FindById(pages, organization, id));
    }

    method DeletePage(organization: Option<Id>, id: Id) returns (deleted: bool)
      modifies this
      ensures (Contents(), deleted) == Delete(old(Contents()), organization, id)
      ensures deleted <==> id in old(pages) && organization == Some(old(pages)[id].organization)
      ensures !deleted ==> Contents() == old(Contents())
      ensures deleted ==> pages.Keys == old(pages).Keys - {id} && nextPage == old(nextPage)
      ensures deleted ==> forall p :: p in pages ==>
                pages[p] == if old(pages)[p].fields.parent == Some(id)
                            then old(pages)[p].(fields := old(pages)[p].fields.(parent := None)) else old(pages)[p]
    {
      deleted := FindById(pages, organization, id).Some?;
      if deleted {
        var was := pages;
        pages := map i | i in was && i != id :: Orphan(was[i], id);
        revisions := DeleteAll(revisions, id);
        ghost var spec := Delete(old(Contents()), organization, id).0.pages;
        assert pages.Keys == spec.Keys;
        assert forall i :: i in pages ==> pages[i] == spec[i];
      }
    }
  }

  // ---------------------------------------------------------------------
  // What the forms do
  // ---------------------------------------------------------------------

  /**
   A new page and its first revision are what the form says; it is refused
   exactly for an unknown organization, a slug taken in it, or an unknown parent.
   */
  lemma CreateTakesTheForm(s: Store, organization: Option<Id>, fields: Fields, author: Option<Id>,
                           note: Option<string>, now: Time, cap: nat)
    ensures var (after, r) := Create(s, organization, fields, author, note, now, cap);
            match r
            case Ok(id) =>
              && id == s.nextPage && after.nextPage == s.nextPage + 1 && organization.Some?
              && after.pages == s.pages[id := Page(organization.value, fields, author, now, now)]
              && after.revisions == Record(s.revisions, id, fields, author, note, now, cap)
              && ParentExists(s.pages, fields.parent)
              && forall p :: p in s.pages && p != id && s.pages[p].organization == organization.value ==>
                   s.pages[p].fields.slug != fields.slug
            case Err(e) =>
              && after == s
              && (organization == None || !ParentExists(s.pages, fields.parent)
                  || exists p :: p in s.pages && p != s.nextPage && s.pages[p].organization == organization.value
                              && s.pages[p].fields.slug == fields.slug)
  {
  }

  /**
   An edited page and its revision hold what the form says; nothing else of
   the page changes but its time. It is refused exactly for a slug taken in the
   organization or an unknown parent, and not found in another organization.
   */
  lemma EditTakesTheForm(s: Store, organization: Option<Id>, id: Id, update: Update, now: Time, cap: nat)
    ensures var (after, r) := Edit(s, organization, id, update, now, cap);
            var mine := id in s.pages && organization == Some(s.pages[id].organization);
            match r
            case Ok(Some(page)) =>
              && mine && after == s.(pages := s.pages[id := page], revisions := after.revisions)
              && page == s.pages[id].(fields := page.fields, updatedAt := now)
              && Holds(page.fields, update.fields,
                       match update.slug case Some(slug) => slug case None => s.pages[id].fields.slug)
              && after.revisions == Record(s.revisions, id, page.fields, update.editedBy, update.note, now, cap)
              && ParentExists(s.pages, update.fields.parent)
              && forall p :: p in s.pages && p != id && s.pages[p].organization == s.pages[id].organization ==>
                   s.pages[p].fields.slug != page.fields.slug
            case Ok(None) => !mine && after == s
            case Err(e) =>
              && mine && after == s
              && (!ParentExists(s.pages, update.fields.parent)
                  || exists p :: p in s.pages && p != id && s.pages[p].organization == s.pages[id].organization
                              && s.pages[p].fields.slug
                                 == if update.slug.Some? then update.slug.value else s.pages[id].fields.slug)
  {
  }

  // ---------------------------------------------------------------------
  // Rows of one page
  // ---------------------------------------------------------------------

  lemma StoredAppend(rs: seq<Revision>, r: Revision, page: Id)
    ensures Stored(rs + [r], page) == Stored(rs, page) + if r.page == page then [r] else []
  {
    assert (rs + [r])[..|rs|] == rs;
  }

  /** The rows of one page with numbers above `floor`. */
  function Above(rows: seq<Revision>, floor: int): seq<Revision> {
    if rows == [] then []
    else
      var last := rows[|rows| - 1];
      Above(rows[..|rows| - 1], floor) + if last.number <= floor then [] else [last]
  }

  lemma AboveAppend(rows: seq<Revision>, r: Revision, floor: int)
    ensures Above(rows + [r], floor) == Above(rows, floor) + if r.number <= floor then [] else [r]
  {
    assert (rows + [r])[..|rows|] == rows;
  }

  /** The last row of a table, dropped or not, as the rows of one page see it. */
  lemma StoredAppendUnless(rs: seq<Revision>, r: Revision, dropped: bool, page: Id)
    ensures Stored(rs + (if dropped then [] else [r]), page)
         == Stored(rs, page) + if dropped || r.page != page then [] else [r]
  {
    StoredAppend(rs, r, page);
    assert rs + [] == rs && Stored(rs, page) + [] == Stored(rs, page);
  }

  lemma AboveUnless(rows: seq<Revision>, r: Revision, absent: bool, floor: int)
    ensures Above(rows + (if absent then [] else [r]), floor)
         == Above(rows, floor) + if absent || r.number <= floor then [] else [r]
  {
    AboveAppend(rows, r, floor);
    assert rows + [] == rows && Above(rows, floor) + [] == Above(rows, floor);
  }

  lemma {:induction false} StoredAfterDelete(rs: seq<Revision>, page: Id, floor: int, other: Id)
    ensures Stored(DeleteUpTo(rs, page, floor), other)
         == if other == page then Above(Stored(rs, page), floor) else Stored(rs, other)
  {
    if rs != [] {
      var init, last := rs[..|rs| - 1], rs[|rs| - 1];
      StoredAfterDelete(init, page, floor, other);
      StoredAppendUnless(DeleteUpTo(init, page, floor), last, last.page == page && last.number <= floor, other);
      AboveUnless(Stored(init, page), last, last.page != page, floor);
    }
  }

  lemma {:induction false} ForgottenAt(rs: seq<Revision>, user: Id, i: nat)
    requires i < |rs|
    ensures |ForgetEditor(rs, user)| == |rs|
    ensures ForgetEditor(rs, user)[i] == rs[i].(editedBy := Without(rs[i].editedBy, user))
  {
    var init := rs[..|rs| - 1];
    ForgottenLength(init, user);
    if i < |init| {
      ForgottenAt(init, user, i);
    }
  }

  lemma {:induction false} ForgottenLength(rs: seq<Revision>, user: Id)
    ensures |ForgetEditor(rs, user)| == |rs|
  {
    if rs != [] {
      ForgottenLength(rs[..|rs| - 1], user);
    }
  }

  lemma ForgetAppend(rs: seq<Revision>, r: Revision, user: Id)
    ensures ForgetEditor(rs + [r], user) == ForgetEditor(rs, user) + [r.(editedBy := Without(r.editedBy, user))]
  {
    assert (rs + [r])[..|rs|] == rs;
  }

  lemma {:induction false} StoredAfterForgetting(rs: seq<Revision>, user: Id, page: Id)
    ensures Stored(ForgetEditor(rs, user), page) == ForgetEditor(Stored(rs, page), user)
  {
    if rs != [] {
      var init, last := rs[..|rs| - 1], rs[|rs| - 1];
      StoredAfterForgetting(init, user, page);
      StoredAppend(ForgetEditor(init, user), last.(editedBy := Without(last.editedBy, user)), page);
      ForgetAppend(Stored(init, page), last, user);
      assert Stored(init, page) + [] == Stored(init, page);
      assert ForgetEditor(Stored(init, page), user) + [] == ForgetEditor(Stored(init, page), user);
    }
  }

  lemma {:induction false} StoredAfterDeleteAll(rs: seq<Revision>, page: Id, other: Id)
    ensures Stored(DeleteAll(rs, page), other) == if other == page then [] else Stored(rs, other)
  {
    if rs != [] {
      var init, last := rs[..|rs| - 1], rs[|rs| - 1];
      StoredAfterDeleteAll(init, page, other);
      StoredAppendUnless(DeleteAll(init, page), last, last.page == page, other);
    }
  }
}
