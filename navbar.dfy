/** The site's navigation bar: a link's href is normalised to a path, split on '#',
    and the bar either loads another page or scrolls the current one, then closes the
    mobile menu. */
module Navigation {
  import opened Strings

  /** `href` itself when it starts with '/', else `/` and `href`. */
  function NormalizePath(href: string): (r: string)
    ensures |r| > 0 && r[0] == '/'
    ensures |href| <= |r| <= |href| + 1 && r[|r| - |href|..] == href
    ensures StartsWith(href, "/") ==> r == href
  {
    if StartsWith(href, "/") then href else "/" + href
  }

  /** Normalising twice is normalising once. */
  lemma NormalizeIdempotent(href: string)
    ensures NormalizePath(NormalizePath(href)) == NormalizePath(href)
  {
    assert StartsWith(NormalizePath(href), "/");
  }

  /** `pathname` of `const [pathname, hash] = path.split('#')`: the text before the
      first '#'. */
  function Pathname(path: string): string
  {
    Split(path, '#')[0]
  }

  /** `hash` of that destructuring: the text between the first and the second '#', or
      `undefined` when there is no '#'; `getElementById(undefined)` looks the string
      "undefined" up, so that is the id this gives. */
  function TargetId(path: string): string
  {
    var pieces := Split(path, '#');
    if |pieces| >= 2 then pieces[1] else "undefined"
  }

  /** What the click does to the window. */
  datatype Action = Navigate(url: string) | ScrollTo(id: string) | Stay

  /** `handleSmoothScroll`'s decision, with the guard as written: another page is
      loaded when its pathname differs from the current one and is not empty;
      otherwise the element with the target id is scrolled to, if the page has one. */
  function Decide(currentPath: string, href: string, ids: set<string>): Action
  {
    var path := NormalizePath(href);
    var pathname := Pathname(path);
    if currentPath != pathname && pathname != "" then Navigate(path)
    else if TargetId(path) in ids then ScrollTo(TargetId(path))
    else Stay
  }

  /** The pathname of a normalised path is never empty, so the `pathname !== ''` half of
      the guard never decides anything. */
  lemma {:induction false} PathnameNotEmpty(href: string)
    ensures Pathname(NormalizePath(href)) != ""
    ensures Pathname(NormalizePath(href))[0] == '/'
  {
    var path := NormalizePath(href);
    SplitFirstPiece(path, '#');
  }

  /** The decision depends only on whether the pathname differs from the current one:
      navigate to the whole path if it does, otherwise scroll to the target if present. */
  lemma DecideSpec(currentPath: string, href: string, ids: set<string>)
    ensures var path := NormalizePath(href);
      && (Decide(currentPath, href, ids).Navigate? <==> currentPath != Pathname(path))
      && (Decide(currentPath, href, ids).Navigate? ==> Decide(currentPath, href, ids).url == path)
      && (Decide(currentPath, href, ids).ScrollTo? <==> currentPath == Pathname(path) && TargetId(path) in ids)
      && (Decide(currentPath, href, ids).ScrollTo? ==> Decide(currentPath, href, ids).id == TargetId(path))
  {
    PathnameNotEmpty(href);
  }

  /** For a path and a target free of '#', `path#target` splits back into them. */
  lemma {:induction false} SplitHash(pathname: string, target: string)
    requires '#' !in pathname && '#' !in target
    ensures Pathname(pathname + "#" + target) == pathname
    ensures TargetId(pathname + "#" + target) == target
  {
    var pieces := [pathname, target];
    assert Join(pieces, '#') == pathname + "#" + target by {
      assert Join(pieces[1..], '#') == target;
    }
    SplitJoin(pieces, '#');
  }

  /** The bar's own links, `/#home` … `/#contact`: from another page they load the home
      page at that section; on the home page they scroll to the section when it exists. */
  lemma SectionLink(currentPath: string, section: string, ids: set<string>)
    requires '#' !in section
    ensures Decide(currentPath, "/#" + section, ids) ==
      if currentPath != "/" then Navigate("/#" + section)
      else if section in ids then ScrollTo(section)
      else Stay
  {
    assert "/#" + section == "/" + "#" + section;
    assert StartsWith("/#" + section, "/");
    SplitHash("/", section);
  }

  /** A link without '#' on its own page looks up the id "undefined". */
  lemma NoHashTarget(href: string)
    requires '#' !in href
    ensures TargetId(NormalizePath(href)) == "undefined"
    ensures Pathname(NormalizePath(href)) == NormalizePath(href)
  {
    var path := NormalizePath(href);
    assert '#' !in path by {
      forall i | 0 <= i < |path| ensures path[i] != '#' {
        if i >= |path| - |href| {
          assert path[i] == href[i - (|path| - |href|)];
        }
      }
    }
    assert Join(Split(path, '#'), '#') == path by { JoinSplit(path, '#'); }
    SplitJoin([path], '#');
  }

  class Navbar {
    var isOpen: bool

    constructor ()
      ensures !isOpen
    {
      isOpen := false;
    }

    /** `handleSmoothScroll`: the window navigates or scrolls as `Decide` says, and the
        mobile menu is closed after every call. */
    method HandleSmoothScroll(href: string, currentPath: string, ids: set<string>) returns (action: Action)
      modifies this
      ensures !isOpen
      ensures action == Decide(currentPath, href, ids)
    {
      var path := if StartsWith(href, "/") then href else "/" + href;
      var pieces := Split(path, '#');
      var pathname := pieces[0];
      if currentPath != pathname && pathname != "" {
        action := Navigate(path);
      } else {
        var targetId := if |pieces| >= 2 then pieces[1] else "undefined";
        action := if targetId in ids then ScrollTo(targetId) else Stay;
      }
      isOpen := false;
    }
  }
}
