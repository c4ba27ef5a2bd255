/** The contact page's content: the `locations` and `contact_methods` lists stored as
    JSON text in `site_content`, the contact rows stored as plain text, and a title
    and subtitle taken from the catalog section. */
module ContactContent {
  import opened Wrappers
  import opened LastWins
  import opened SiteContent

  /** A value of the accumulated object: plain text, a parsed JSON value, or the
      empty list `[]`. `J` stands for whatever `JSON.parse` produces. */
  datatype Field<J> = Text(text: string) | Parsed(json: J) | EmptyList

  const Locations := "locations"
  const ContactMethods := "contact_methods"
  const Title := "title"
  const Subtitle := "subtitle"

  /** The two elements whose content is JSON. */
  predicate IsListElement(element: string)
  {
    element == Locations || element == ContactMethods
  }

  /** The object the fold starts from. */
  function Defaults<J>(): (m: map<string, Field<J>>)
    ensures m.Keys == {Locations, ContactMethods, Title, Subtitle}
    ensures forall k :: k in m ==> m[k] == if IsListElement(k) then EmptyList else Text("")
  {
    map[Locations := EmptyList, ContactMethods := EmptyList, Title := Text(""), Subtitle := Text("")]
  }

  /** What one row contributes under its element: a list element's non-empty content
      is parsed, and empty content or a parse failure gives `[]`; any other element
      keeps its content as text. */
  function Interpret<J>(element: string, content: string, parse: string -> Option<J>): (f: Field<J>)
    ensures IsListElement(element) ==> !f.Text?
    ensures IsListElement(element) && content == "" ==> f == EmptyList
    ensures IsListElement(element) && content != "" ==> (f.Parsed? <==> parse(content).Some?)
    ensures IsListElement(element) && f.Parsed? ==> parse(content) == Some(f.json)
    ensures !IsListElement(element) ==> f == Text(content)
  {
    if IsListElement(element) then
      if content == "" then EmptyList
      else match parse(content)
        case Some(j) => Parsed(j)
        case None => EmptyList
    else Text(content)
  }

  /** The `reduce` of `fetchContactContent` over the rows of the first query. */
  function ContactFold<J>(rows: seq<ContentRow>, parse: string -> Option<J>): map<string, Field<J>>
  {
    Fold(Defaults(), rows, ElementOf, (r: ContentRow) => Interpret(r.element, r.content, parse))
  }

  /** The folded object holds the four defaults' keys and one key per row element.
      A key no row names keeps its default; a key some row names holds what the last
      such row contributes. */
  lemma ContactFoldAt<J>(rows: seq<ContentRow>, parse: string -> Option<J>, e: string)
    ensures e in ContactFold(rows, parse) <==> e in Defaults<J>() || exists i :: 0 <= i < |rows| && rows[i].element == e
    ensures (forall i :: 0 <= i < |rows| ==> rows[i].element != e) && e in Defaults<J>() ==>
      ContactFold(rows, parse)[e] == Defaults<J>()[e]
    ensures forall i :: 0 <= i < |rows| && rows[i].element == e && (forall j :: i < j < |rows| ==> rows[j].element != e) ==>
      e in ContactFold(rows, parse) && ContactFold(rows, parse)[e] == Interpret(e, rows[i].content, parse)
  {
    var val := (r: ContentRow) => Interpret(r.element, r.content, parse);
    FoldAt(Defaults(), rows, ElementOf, val, e);
    LastWithSpec(rows, ElementOf, e);
    forall i | 0 <= i < |rows| && rows[i].element == e && (forall j :: i < j < |rows| ==> rows[j].element != e)
      ensures ContactFold(rows, parse)[e] == Interpret(e, rows[i].content, parse)
    {
      var i' :| 0 <= i' < |rows| && rows[i'] == LastWith(rows, ElementOf, e).value && ElementOf(rows[i']) == e
        && forall j :: i' < j < |rows| ==> ElementOf(rows[j]) != e;
      assert i == i';
    }
  }

  /** The two list elements are never the row's raw text, whatever the rows hold: they
      hold the parse result, or `[]` for empty or unparsable content, because a bad row
      falls back to `[]` instead of failing. */
  lemma {:induction false} ListElementsNeverText<J>(rows: seq<ContentRow>, parse: string -> Option<J>, e: string)
    requires IsListElement(e)
    ensures e in ContactFold(rows, parse) && !ContactFold(rows, parse)[e].Text?
    decreases |rows|
  {
    if rows != [] {
      ListElementsNeverText(rows[..|rows| - 1], parse, e);
    }
  }

  /** `fetchContactContent`: a first-query error is thrown with its message; otherwise
      the folded object is returned, with `title` and `subtitle` overwritten by the
      catalog rows at positions 0 and 1 when the catalog query succeeded and those
      rows exist. */
  method FetchContactContent<J>(query: Result<seq<ContentRow>>, catalog: Result<seq<string>>, parse: string -> Option<J>)
    returns (r: Result<map<string, Field<J>>>)
    ensures r.Failure? <==> query.Failure?
    ensures query.Failure? ==> r.error == query.error
    ensures query.Success? ==> r.value.Keys == ContactFold(query.value, parse).Keys
    ensures query.Success? ==> forall k :: k in r.value && k != Title && k != Subtitle ==>
      r.value[k] == ContactFold(query.value, parse)[k]
    ensures query.Success? ==> Defaults<J>().Keys <= r.value.Keys
    ensures query.Success? ==> (r.value[Title] ==
      if catalog.Success? && |catalog.value| > 0 then Text(catalog.value[0]) else ContactFold(query.value, parse)[Title])
    ensures query.Success? ==> (r.value[Subtitle] ==
      if catalog.Success? && |catalog.value| > 1 then Text(catalog.value[1]) else ContactFold(query.value, parse)[Subtitle])
  {
    if query.Failure? {
      return Failure(query.error);
    }
    var content := ContactFold(query.value, parse);
    ContactFoldAt(query.value, parse, Title);
    ContactFoldAt(query.value, parse, Subtitle);
    ContactFoldAt(query.value, parse, Locations);
    ContactFoldAt(query.value, parse, ContactMethods);
    if catalog.Success? {
      if |catalog.value| > 0 {
        content := content[Title := Text(catalog.value[0])];
      }
      if |catalog.value| > 1 {
        content := content[Subtitle := Text(catalog.value[1])];
      }
    }
    r := Success(content);
  }
}
