/** The site-content handlers (server/src/controllers/admin/cmsController.js): the
    SiteContent singleton, created with its defaults on first use, its emergency
    message and hotlines, its announcements, and the public feed built from them. */
module Cms {
  import opened Common
  import opened Text
  import opened Js
  import opened Models
  import opened Store
  import opened Auth
  import opened ActivityLogger

  const MaxHotlines: nat := 10
  const FeedSize: nat := 5

  /** `ensureSiteContent`: the stored singleton, or a new one with the schema defaults. */
  method EnsureSiteContent(db: Db) returns (doc: SiteContent)
    requires db.Valid()
    modifies db
    ensures db.Valid()
    ensures db.site == Some(doc)
    ensures old(db.site).Some? ==> doc == old(db.site).value
    ensures old(db.site).None? ==> doc == DefaultSiteContent()
    ensures db.requests == old(db.requests) && db.volunteers == old(db.volunteers) && db.admins == old(db.admins)
    ensures db.inventory == old(db.inventory) && db.logs == old(db.logs) && db.clock == old(db.clock)
  {
    if db.site.Some? {
      return db.site.value;
    }
    doc := DefaultSiteContent();
    var saved := db.SaveSite(doc);
  }

  /** Ensuring twice is ensuring once: the second call finds the first one's document. */
  method EnsureTwice(db: Db) returns (first: SiteContent, second: SiteContent)
    requires db.Valid()
    modifies db
    ensures db.Valid()
    ensures first == second && db.site == Some(first)
    ensures old(db.site).None? ==> first == DefaultSiteContent()
    ensures old(db.site).Some? ==> first == old(db.site).value
  {
    first := EnsureSiteContent(db);
    second := EnsureSiteContent(db);
  }

  /** `normalizeHotlines`: the trimmed, non-empty lines of an array, at most ten, in order. */
  function NormalizeHotlines(raw: JsValue): (r: seq<string>)
    ensures !raw.Arr? ==> r == []
    ensures raw.Arr? ==> r == Take(NonEmptyTexts(raw.items), MaxHotlines)
    ensures |r| <= MaxHotlines
    ensures forall i :: 0 <= i < |r| ==> r[i] != "" && IsTrimmed(r[i])
  {
    if raw.Arr? then Take(NonEmptyTexts(raw.items), MaxHotlines) else []
  }

  /** Lines that are already normal come back unchanged, up to ten of them. */
  lemma HotlinesOfNormal(lines: seq<string>)
    requires forall i :: 0 <= i < |lines| ==> lines[i] != "" && IsTrimmed(lines[i])
    ensures NormalizeHotlines(Arr(seq(|lines|, i requires 0 <= i < |lines| => Str(lines[i])))) == Take(lines, MaxHotlines)
  {
    NonEmptyTextsOfNormal(lines);
  }

  // ---- the public feed ----

  /** `.filter((announcement) => announcement.published)`. */
  function Published(anns: seq<Announcement>): (r: seq<Announcement>)
    ensures |r| <= |anns|
    ensures forall i :: 0 <= i < |r| ==> r[i].published
    ensures multiset(r) <= multiset(anns)
  {
    if anns == [] then []
    else
      assert anns == [anns[0]] + anns[1..];
      (if anns[0].published then [anns[0]] else []) + Published(anns[1..])
  }

  /** Every published announcement is kept. */
  lemma {:induction false} PublishedKeepsAll(anns: seq<Announcement>, a: Announcement)
    ensures a in Published(anns) <==> a in anns && a.published
  {
    if anns != [] {
      PublishedKeepsAll(anns[1..], a);
      assert anns == [anns[0]] + anns[1..];
    }
  }

  predicate NewestFirstOrder(anns: seq<Announcement>) {
    forall i, j :: 0 <= i < j < |anns| ==> anns[i].createdAt >= anns[j].createdAt
  }

  /** `.sort((a, b) => b.createdAt - a.createdAt)`: a stable sort, newest first. */
  function SortNewestFirst(anns: seq<Announcement>): (r: seq<Announcement>)
    ensures multiset(r) == multiset(anns)
    ensures NewestFirstOrder(r)
  {
    if anns == [] then []
    else
      assert anns == [anns[0]] + anns[1..];
      InsertByAge(anns[0], SortNewestFirst(anns[1..]))
  }

  /** Puts `a` in front of the first entry that is not newer than it. */
  function InsertByAge(a: Announcement, sorted: seq<Announcement>): (r: seq<Announcement>)
    requires NewestFirstOrder(sorted)
    ensures multiset(r) == multiset(sorted) + multiset{a}
    ensures NewestFirstOrder(r)
    ensures sorted == [] ==> r == [a]
    ensures sorted != [] ==> r[0] == a || r[0] == sorted[0]
    ensures sorted != [] && sorted[0].createdAt <= a.createdAt ==> r == [a] + sorted
  {
    if sorted == [] || sorted[0].createdAt <= a.createdAt then [a] + sorted
    else
      var rest := InsertByAge(a, sorted[1..]);
      assert sorted == [sorted[0]] + sorted[1..];
      PrependNewest(sorted[0], rest);
      [sorted[0]] + rest
  }

  /** An entry no older than the head of an ordered list can go in front of it. */
  lemma PrependNewest(x: Announcement, xs: seq<Announcement>)
    requires NewestFirstOrder(xs)
    requires xs != [] ==> xs[0].createdAt <= x.createdAt
    ensures NewestFirstOrder([x] + xs)
  {
    forall i, j | 0 <= i < j < |[x] + xs| ensures ([x] + xs)[i].createdAt >= ([x] + xs)[j].createdAt {
      if i == 0 {
        assert ([x] + xs)[j] == xs[j - 1];
        assert xs[0].createdAt >= xs[j - 1].createdAt;
      }
    }
  }

  /** On a list already newest first the sort changes nothing. */
  lemma {:induction false} SortOfSorted(anns: seq<Announcement>)
    requires NewestFirstOrder(anns)
    ensures SortNewestFirst(anns) == anns
  {
    if anns != [] {
      SortOfSorted(anns[1..]);
      assert [anns[0]] + anns[1..] == anns;
    }
  }

  /** The announcements the public page shows: published ones, newest first, at most five. */
  function PublicFeed(doc: SiteContent): (r: seq<Announcement>)
    ensures |r| <= FeedSize
    ensures forall i :: 0 <= i < |r| ==> r[i].published && r[i] in doc.announcements
    ensures NewestFirstOrder(r)
  {
    var sorted := SortNewestFirst(Published(doc.announcements));
    var r := Take(sorted, FeedSize);
    forall i | 0 <= i < |r| ensures r[i].published && r[i] in doc.announcements {
      assert r[i] in multiset(sorted);
      PublishedKeepsAll(doc.announcements, r[i]);
    }
    r
  }

  /** With announcements stored newest first, as `unshift` keeps them, the feed is
      simply the first five published announcements in stored order, and no
      published announcement left out is newer than one shown. */
  lemma {:induction false} PublicFeedOfStored(doc: SiteContent)
    requires NewestFirstOrder(doc.announcements)
    ensures PublicFeed(doc) == Take(Published(doc.announcements), FeedSize)
  {
    PublishedKeepsOrder(doc.announcements);
    SortOfSorted(Published(doc.announcements));
  }

  lemma {:induction false} PublishedKeepsOrder(anns: seq<Announcement>)
    requires NewestFirstOrder(anns)
    ensures NewestFirstOrder(Published(anns))
  {
    if anns != [] {
      PublishedKeepsOrder(anns[1..]);
      var rest := Published(anns[1..]);
      forall x | x in rest ensures x.createdAt <= anns[0].createdAt {
        PublishedKeepsAll(anns[1..], x);
      }
    }
  }

  /** What `getPublicSiteContent` answers with. */
  datatype PublicContent = PublicContent(emergencyMessage: string, hotlineNumbers: seq<string>, announcements: seq<Announcement>)

  method GetPublicSiteContent(db: Db) returns (content: PublicContent)
    requires db.Valid()
    modifies db
    ensures db.Valid()
    ensures db.site.Some?
    ensures old(db.site).Some? ==> db.site == old(db.site)
    ensures old(db.site).None? ==> db.site == Some(DefaultSiteContent())
    ensures content == PublicContent(db.site.value.emergencyMessage, db.site.value.hotlineNumbers, PublicFeed(db.site.value))
    ensures db.requests == old(db.requests) && db.volunteers == old(db.volunteers) && db.admins == old(db.admins)
    ensures db.inventory == old(db.inventory) && db.logs == old(db.logs)
  {
    var doc := EnsureSiteContent(db);
    content := PublicContent(doc.emergencyMessage, doc.hotlineNumbers, PublicFeed(doc));
  }

  // ---- the admin edits ----

  function MessageText(body: Body): string { TrimmedText(Field(body, "emergencyMessage")) }

  method UpdateEmergencyMessage(db: Db, user: Option<RequestUser>, body: Body) returns (reply: Reply<SiteContent>)
    requires db.Valid()
    modifies db
    ensures db.Valid()
    ensures MessageText(body) == "" ==> reply == Failure(400, "Emergency message is required") && unchanged(db)
    ensures MessageText(body) != "" ==>
              var ensured := if old(db.site).Some? then old(db.site).value else DefaultSiteContent();
              var doc := ensured.(emergencyMessage := MessageText(body));
              if |MessageText(body)| <= 180 then
                && db.site == Some(doc)
                && Committed(reply, 200, doc, old(db.logs), db.logs, user, "cms.emergency.updated",
                             "Homepage emergency message updated", db.clock)
              else
                // the singleton is created even though the message is refused
                reply == Failure(500, ValidationFailed) && db.site == Some(ensured) && db.logs == old(db.logs)
    ensures db.requests == old(db.requests) && db.volunteers == old(db.volunteers) && db.admins == old(db.admins)
    ensures db.inventory == old(db.inventory)
  {
    var message := MessageText(body);
    if message == "" {
      return Failure(400, "Emergency message is required");
    }
    var doc := EnsureSiteContent(db);
    doc := doc.(emergencyMessage := message);
    var saved := db.SaveSite(doc);
    if !saved {
      return Failure(500, ValidationFailed);
    }
    reply := Commit(db, user, "cms.emergency.updated",
                    "Homepage emergency message updated", 200, doc);
  }

  method UpdateHotlines(db: Db, user: Option<RequestUser>, body: Body) returns (reply: Reply<SiteContent>)
    requires db.Valid()
    modifies db
    ensures db.Valid()
    ensures NormalizeHotlines(Field(body, "hotlineNumbers")) == [] ==>
              reply == Failure(400, "At least one hotline number is required") && unchanged(db)
    ensures NormalizeHotlines(Field(body, "hotlineNumbers")) != [] ==>
              var ensured := if old(db.site).Some? then old(db.site).value else DefaultSiteContent();
              var doc := ensured.(hotlineNumbers := NormalizeHotlines(Field(body, "hotlineNumbers")));
              && db.site == Some(doc)
              && Committed(reply, 200, doc, old(db.logs), db.logs, user, "cms.hotlines.updated",
                           "Hotline numbers updated (" + NatToDecimal(|doc.hotlineNumbers|) + " entries)", db.clock)
    ensures db.requests == old(db.requests) && db.volunteers == old(db.volunteers) && db.admins == old(db.admins)
    ensures db.inventory == old(db.inventory)
  {
    var hotlines := NormalizeHotlines(Field(body, "hotlineNumbers"));
    if |hotlines| == 0 {
      return Failure(400, "At least one hotline number is required");
    }
    var doc := EnsureSiteContent(db);
    doc := doc.(hotlineNumbers := hotlines);
    var saved := db.SaveSite(doc);
    reply := Commit(db, user, "cms.hotlines.updated",
                    "Hotline numbers updated (" + NatToDecimal(|hotlines|) + " entries)", 200, doc);
  }

  function TitleText(body: Body): string { TrimmedText(Field(body, "title")) }
  function BodyText(body: Body): string { TrimmedText(Field(body, "body")) }

  /** `req.body.published !== false`: only an explicit `false` makes a draft. */
  function PublishOnCreate(body: Body): (p: bool)
    ensures !p <==> Field(body, "published") == Bool(false)
  {
    Field(body, "published") != Bool(false)
  }

  method CreateAnnouncement(db: Db, user: Option<RequestUser>, body: Body) returns (reply: Reply<Announcement>)
    requires db.Valid()
    modifies db
    ensures db.Valid()
    ensures TitleText(body) == "" || BodyText(body) == "" ==>
              reply == Failure(400, "Announcement title and body are required") && unchanged(db)
    ensures TitleText(body) != "" && BodyText(body) != "" ==>
              var ensured := if old(db.site).Some? then old(db.site).value else DefaultSiteContent();
              var a := Announcement(old(db.clock), TitleText(body), BodyText(body), PublishOnCreate(body), old(db.clock));
              if ValidAnnouncement(a) then
                // prepended: the list grows by one and the new announcement is element 0
                && db.site == Some(ensured.(announcements := [a] + ensured.announcements))
                && Committed(reply, 201, a, old(db.logs), db.logs, user, "cms.announcement.created",
                             "Announcement \"" + a.title + "\" created (" + (if a.published then "published" else "draft") + ")", db.clock)
              else
                reply == Failure(500, ValidationFailed) && db.site == Some(ensured) && db.logs == old(db.logs)
    ensures db.requests == old(db.requests) && db.volunteers == old(db.volunteers) && db.admins == old(db.admins)
    ensures db.inventory == old(db.inventory)
  {
    var title := TitleText(body);
    var text := BodyText(body);
    var published := PublishOnCreate(body);
    if title == "" || text == "" {
      return Failure(400, "Announcement title and body are required");
    }
    var doc := EnsureSiteContent(db);
    var a, saved := db.AddAnnouncement(title, text, published);
    if !saved {
      return Failure(500, ValidationFailed);
    }
    reply := Commit(db, user, "cms.announcement.created",
                    "Announcement \"" + title + "\" created (" + (if published then "published" else "draft") + ")", 201, a);
  }

  /** `doc.announcements.id(id)`: the position of the announcement with that id. */
  function FindAnnouncement(anns: seq<Announcement>, id: Id): (r: Option<nat>)
    ensures r.Some? ==> r.value < |anns| && anns[r.value].id == id
    ensures r.None? ==> forall i :: 0 <= i < |anns| ==> anns[i].id != id
  {
    if anns == [] then None
    else if anns[0].id == id then Some(0)
    else match FindAnnouncement(anns[1..], id)
      case Some(i) => Some(i + 1)
      case None => None
  }

  /** Setting one announcement's flag keeps the list's order, ids and validity. */
  lemma SetPublishedKeeps(anns: seq<Announcement>, i: nat, p: bool, clock: nat)
    requires i < |anns|
    ensures AnnouncementsNewestFirst(anns, clock) ==> AnnouncementsNewestFirst(anns[i := anns[i].(published := p)], clock)
    ensures ValidAnnouncement(anns[i]) ==> ValidAnnouncement(anns[i].(published := p))
  {
  }

  method ToggleAnnouncementPublish(db: Db, user: Option<RequestUser>, id: Id, body: Body) returns (reply: Reply<Announcement>)
    requires db.Valid()
    modifies db
    ensures db.Valid()
    ensures var ensured := if old(db.site).Some? then old(db.site).value else DefaultSiteContent();
            var p := Field(body, "published") == Bool(true);
            match FindAnnouncement(ensured.announcements, id)
            case None =>
              reply == Failure(404, "Announcement not found") && db.site == Some(ensured) && db.logs == old(db.logs)
            case Some(i) =>
              var a := ensured.announcements[i].(published := p);
              && db.site == Some(ensured.(announcements := ensured.announcements[i := a]))
              && Committed(reply, 200, a, old(db.logs), db.logs, user, "cms.announcement.publish-toggled",
                           "Announcement \"" + a.title + "\" set to " + (if p then "published" else "unpublished"), db.clock)
    ensures db.requests == old(db.requests) && db.volunteers == old(db.volunteers) && db.admins == old(db.admins)
    ensures db.inventory == old(db.inventory)
  {
    var published := Field(body, "published") == Bool(true);
    var doc := EnsureSiteContent(db);
    var index := FindAnnouncement(doc.announcements, id);
    if index.None? {
      return Failure(404, "Announcement not found");
    }
    var i := index.value;
    var a := doc.announcements[i].(published := published);
    SetPublishedKeeps(doc.announcements, i, published, db.clock);
    doc := doc.(announcements := doc.announcements[i := a]);
    var saved := db.SaveSite(doc);
    reply := Commit(db, user, "cms.announcement.publish-toggled",
                    "Announcement \"" + a.title + "\" set to " + (if published then "published" else "unpublished"), 200, a);
  }
}
