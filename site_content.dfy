/** The `site_content` table from the admin side (the sequential upsert loop of the
    section forms) and from the public side (the fold of a section's rows back into
    an element-to-content object). */
module SiteContent {
  import opened Wrappers
  import opened Strings
  import opened LastWins
  import opened Backend

  /** One `{ section, element, content }` object handed to the upsert loop. */
  datatype Update = Update(section: string, element: string, content: string)

  function KeyOf(u: Update): ContentKey
  {
    ContentKey(u.section, u.element)
  }

  function ContentOf(u: Update): string
  {
    u.content
  }

  /** The table after every update of `us` has been upserted on `section,element`, in order. */
  function ApplyUpdates(table: map<ContentKey, string>, us: seq<Update>): map<ContentKey, string>
  {
    Fold(table, us, KeyOf, ContentOf)
  }

  /** After the upserts, a key is present exactly when it was before or some update
      names it: rows are added only for new keys. A key that some update names holds
      the content of the last such update; any other key keeps its old content. */
  lemma ApplyUpdatesAt(table: map<ContentKey, string>, us: seq<Update>, k: ContentKey)
    ensures k in ApplyUpdates(table, us) <==> k in table || exists i :: 0 <= i < |us| && KeyOf(us[i]) == k
    ensures (forall i :: 0 <= i < |us| ==> KeyOf(us[i]) != k) && k in table ==> ApplyUpdates(table, us)[k] == table[k]
    ensures forall i :: 0 <= i < |us| && KeyOf(us[i]) == k && (forall j :: i < j < |us| ==> KeyOf(us[j]) != k) ==>
      k in ApplyUpdates(table, us) && ApplyUpdates(table, us)[k] == us[i].content
  {
    FoldAt(table, us, KeyOf, ContentOf, k);
    LastWithSpec(us, KeyOf, k);
    forall i | 0 <= i < |us| && KeyOf(us[i]) == k && (forall j :: i < j < |us| ==> KeyOf(us[j]) != k)
      ensures ApplyUpdates(table, us)[k] == us[i].content
    {
      var i' :| 0 <= i' < |us| && us[i'] == LastWith(us, KeyOf, k).value && KeyOf(us[i']) == k
        && forall j :: i' < j < |us| ==> KeyOf(us[j]) != k;
      assert i == i';
    }
  }

  /** Upserting the same updates twice leaves the table as upserting them once. */
  lemma {:induction false} ApplyUpdatesTwice(table: map<ContentKey, string>, us: seq<Update>)
    ensures ApplyUpdates(ApplyUpdates(table, us), us) == ApplyUpdates(table, us)
  {
    var once := ApplyUpdates(table, us);
    forall k ensures (k in ApplyUpdates(once, us) <==> k in once) && (k in once ==> ApplyUpdates(once, us)[k] == once[k]) {
      ApplyUpdatesAt(table, us, k);
      ApplyUpdatesAt(once, us, k);
      FoldAt(table, us, KeyOf, ContentOf, k);
      FoldAt(once, us, KeyOf, ContentOf, k);
    }
  }

  /** The position of the first error among the replies, or their length when there is none. */
  function FirstError(replies: seq<Option<string>>): (n: nat)
    ensures n <= |replies|
    ensures forall i :: 0 <= i < n ==> replies[i].None?
    ensures n < |replies| ==> replies[n].Some?
    decreases |replies|
  {
    if replies == [] then 0
    else if replies[0].Some? then 0
    else 1 + FirstError(replies[1..])
  }

  /** How many upserts a loop that stops at the first error sends. */
  function Attempted(replies: seq<Option<string>>): (n: nat)
    ensures n <= |replies|
    ensures n == |replies| || (0 < n && replies[n - 1].Some?)
  {
    var e := FirstError(replies);
    if e < |replies| then e + 1 else e
  }

  /** The calls the loop makes for `us`, one upsert per update, in order. */
  function UpsertCalls(us: seq<Update>): (r: seq<Call>)
    ensures |r| == |us|
    ensures forall i :: 0 <= i < |us| ==> r[i] == ContentUpsert(KeyOf(us[i]))
  {
    seq(|us|, i requires 0 <= i < |us| => ContentUpsert(KeyOf(us[i])))
  }

  /** `updateSiteContent`: upserts the updates one after the other and throws the
      first error. The updates before it stay applied; those after it are never
      sent. `replies[i]` is what the backend answers to the i-th upsert. */
  method UpdateSiteContent(store: Store, updates: seq<Update>, replies: seq<Option<string>>) returns (err: Option<string>)
    requires |replies| == |updates|
    modifies store
    ensures var n := FirstError(replies);
      && err == (if n < |updates| then replies[n] else None)
      && store.Tables() == old(store.Tables()).(siteContent := ApplyUpdates(old(store.siteContent), updates[..n]))
    ensures store.calls == old(store.calls) + UpsertCalls(updates[..Attempted(replies)])
    ensures store.nextProductId == old(store.nextProductId)
  {
    var i := 0;
    err := None;
    while i < |updates|
      invariant 0 <= i <= |updates|
      invariant forall j :: 0 <= j < i ==> replies[j].None?
      invariant store.Tables() == old(store.Tables()).(siteContent := ApplyUpdates(old(store.siteContent), updates[..i]))
      invariant store.calls == old(store.calls) + UpsertCalls(updates[..i])
      invariant store.nextProductId == old(store.nextProductId)
    {
      var u := updates[i];
      var e := store.UpsertContent(KeyOf(u), u.content, replies[i]);
      assert updates[..i + 1] == updates[..i] + [u];
      if e.Some? {
        assert FirstError(replies) == i by { FirstErrorAt(replies, i); }
        return e;
      }
      i := i + 1;
    }
    FirstErrorNone(replies);
    assert updates[..i] == updates;
  }

  /** The first error is at `i` when `i` holds one and nothing before it does. */
  lemma {:induction false} FirstErrorAt(replies: seq<Option<string>>, i: nat)
    requires i < |replies| && replies[i].Some?
    requires forall j :: 0 <= j < i ==> replies[j].None?
    ensures FirstError(replies) == i
    decreases i
  {
    if i > 0 {
      FirstErrorAt(replies[1..], i - 1);
    }
  }

  /** Without any error every update is applied. */
  lemma {:induction false} FirstErrorNone(replies: seq<Option<string>>)
    requires forall j :: 0 <= j < |replies| ==> replies[j].None?
    ensures FirstError(replies) == |replies|
    decreases |replies|
  {
    if replies != [] {
      FirstErrorNone(replies[1..]);
    }
  }

  /** One `{ element, content }` row of a `site_content` query. */
  datatype ContentRow = ContentRow(element: string, content: string)

  function ElementOf(r: ContentRow): string
  {
    r.element
  }

  function RowContent(r: ContentRow): string
  {
    r.content
  }

  /** `data.reduce((acc, item) => { acc[item.element] = item.content; ... }, {})`. */
  function ContentMap(rows: seq<ContentRow>): map<string, string>
  {
    Fold(map[], rows, ElementOf, RowContent)
  }

  /** The object has one key per distinct element among the rows, and holds the
      content of the last row with that element, unchanged. */
  lemma ContentMapAt(rows: seq<ContentRow>, e: string)
    ensures e in ContentMap(rows) <==> exists i :: 0 <= i < |rows| && rows[i].element == e
    ensures forall i :: 0 <= i < |rows| && rows[i].element == e && (forall j :: i < j < |rows| ==> rows[j].element != e) ==>
      e in ContentMap(rows) && ContentMap(rows)[e] == rows[i].content
  {
    FoldAt(map[], rows, ElementOf, RowContent, e);
    LastWithSpec(rows, ElementOf, e);
    forall i | 0 <= i < |rows| && rows[i].element == e && (forall j :: i < j < |rows| ==> rows[j].element != e)
      ensures ContentMap(rows)[e] == rows[i].content
    {
      var i' :| 0 <= i' < |rows| && rows[i'] == LastWith(rows, ElementOf, e).value && ElementOf(rows[i']) == e
        && forall j :: i' < j < |rows| ==> ElementOf(rows[j]) != e;
      assert i == i';
    }
  }

  /** The prefix of the error message thrown by a failed section query. */
  function FetchErrorPrefix(section: string): string
  {
    "Error fetching site content for section " + section + ": "
  }

  /** `fetchSiteContent`: the query's error becomes an error naming the section;
      its rows become the element-to-content object. */
  function FetchSiteContent(section: string, query: Result<seq<ContentRow>>): (r: Result<map<string, string>>)
    ensures r.Failure? <==> query.Failure?
    ensures query.Failure? ==> r.error == FetchErrorPrefix(section) + query.error
    ensures query.Success? && query.value == [] ==> r == Success(map[])
  {
    match query
    case Failure(msg) => Failure(FetchErrorPrefix(section) + msg)
    case Success(rows) => Success(ContentMap(rows))
  }

  /** The error message of a failed query starts with the section's name in its fixed text. */
  lemma FetchErrorNamesSection(section: string, msg: string)
    ensures Contains(FetchSiteContent(section, Failure(msg)).error, section)
  {
    var s := FetchSiteContent(section, Failure(msg)).error;
    var pre := "Error fetching site content for section ";
    assert s == pre + section + ": " + msg;
    assert s[|pre|..|pre| + |section|] == section;
    assert OccursAt(s, section, |pre|);
    ContainsIff(s, section);
  }

  /** The rows are the section's rows of the table, each listed once. */
  ghost predicate ListsSection(rows: seq<ContentRow>, table: map<ContentKey, string>, section: string)
  {
    && (forall i :: 0 <= i < |rows| ==>
         ContentKey(section, rows[i].element) in table && table[ContentKey(section, rows[i].element)] == rows[i].content)
    && (forall i, j :: 0 <= i < j < |rows| ==> rows[i].element != rows[j].element)
    && (forall k :: k in table && k.section == section ==> exists i :: 0 <= i < |rows| && rows[i].element == k.element)
  }

  /** What the section holds in the table, keyed by element. */
  function SectionView(table: map<ContentKey, string>, section: string): map<string, string>
  {
    map k | k in table && k.section == section :: k.element := table[k]
  }

  /** Reading a section back yields exactly what the table holds for it. */
  lemma ReadBack(rows: seq<ContentRow>, table: map<ContentKey, string>, section: string)
    requires ListsSection(rows, table, section)
    ensures FetchSiteContent(section, Success(rows)) == Success(SectionView(table, section))
  {
    var m := ContentMap(rows);
    var v := SectionView(table, section);
    forall e ensures (e in m <==> e in v) && (e in m ==> m[e] == v[e]) {
      ContentMapAt(rows, e);
      var k := ContentKey(section, e);
      if e in v {
        assert k in table;
      }
      if exists i :: 0 <= i < |rows| && rows[i].element == e {
        var i :| 0 <= i < |rows| && rows[i].element == e;
        assert k in table;
        assert v[e] == table[k];
        assert m[e] == rows[i].content;
      }
    }
    assert m == v;
  }

  /** After a successful write of `updates`, reading a section back yields, for each
      element the updates name in that section, the last content written for it. */
  lemma WriteThenRead(table: map<ContentKey, string>, updates: seq<Update>, rows: seq<ContentRow>, section: string, i: nat)
    requires ListsSection(rows, ApplyUpdates(table, updates), section)
    requires i < |updates| && updates[i].section == section
    requires forall j :: i < j < |updates| ==> KeyOf(updates[j]) != KeyOf(updates[i])
    ensures var r := FetchSiteContent(section, Success(rows));
      r.Success? && updates[i].element in r.value && r.value[updates[i].element] == updates[i].content
  {
    ReadBack(rows, ApplyUpdates(table, updates), section);
    ApplyUpdatesAt(table, updates, KeyOf(updates[i]));
  }
}
