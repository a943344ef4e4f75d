/**
 * What `ui` hands to the renderer: the ordered lines of the launcher screen
 * (`Item::as_line` and the line list built in `ui`). Styling, the logo and
 * the centering pads belong to the renderer and are not part of this model.
 */
module View {
  import opened Wrappers
  import opened Hex
  import opened Selection
  import Store

  /** A screen line: a red title, an empty line, or an entry `[label]  dir/name`. */
  datatype Line = Title(text: string) | Blank | Entry(key: char, dir: string, name: string)

  /** `rsplit_once('/')`: the text before and after the last '/'. */
  function SplitPath(path: string): (parts: Option<(string, string)>)
    ensures parts.Some? <==> '/' in path
    ensures parts.Some? ==> parts.value.0 + "/" + parts.value.1 == path && '/' !in parts.value.1
  {
    if path == [] then None
    else
      var last := path[|path| - 1];
      var init := path[..|path| - 1];
      assert path == init + [last];
      if last == '/' then Some((init, ""))
      else match SplitPath(init)
        case None => None
        case Some(parts) => Some((parts.0, parts.1 + [last]))
  }

  /** The split is at the LAST '/': no other split with a slash-free name exists. */
  lemma SplitPathUnique(path: string, dir: string, name: string)
    requires dir + "/" + name == path && '/' !in name
    ensures SplitPath(path) == Some((dir, name))
  {
    var parts := SplitPath(path).value;
    var n, n' := |name|, |parts.1|;
    assert path[|path| - n - 1] == '/';
    assert path[|path| - n' - 1] == '/';
    assert name == path[|path| - n..] == parts.1;
    assert dir == path[..|path| - n - 1] == parts.0;
  }

  /** `Item::as_line`: the entry for `path` under the key `key`; the `unwrap` needs a '/' in the path. */
  function AsLine(path: string, key: char): (line: Line)
    requires '/' in path
    ensures line.Entry? && line.key == key
    ensures line.dir + line.name == path && '/' !in line.name
    ensures |line.dir| > 0 && line.dir[|line.dir| - 1] == '/'
  {
    var parts := SplitPath(path).value;
    assert parts.0 + "/" + parts.1 == (parts.0 + "/") + parts.1;
    Entry(key, parts.0 + "/", parts.1)
  }

  /** What `ui` needs not to panic: a '/' in every path and at most sixteen labels. */
  predicate Renderable(recents: seq<string>, bookmarks: seq<string>)
  {
    |recents| + |bookmarks| <= 16 &&
    (forall p :: p in recents ==> '/' in p) &&
    (forall p :: p in bookmarks ==> '/' in p)
  }

  /** Entry lines for `items`, labelled from `first` upward. */
  function Entries(items: seq<string>, first: nat): (lines: seq<Line>)
    requires first + |items| <= 16 && forall p :: p in items ==> '/' in p
    ensures |lines| == |items|
  {
    seq(|items|, k requires 0 <= k < |items| => AsLine(items[k], HexChar(first + k)))
  }

  /** The screen: "Recents", blank, the recents, blank, "Bookmarks", blank, the bookmarks. */
  function Screen(recents: seq<string>, bookmarks: seq<string>): (lines: seq<Line>)
    requires Renderable(recents, bookmarks)
    ensures |lines| == 5 + |recents| + |bookmarks|
  {
    [Title("Recents"), Blank] + Entries(recents, 0) + [Blank, Title("Bookmarks"), Blank] + Entries(bookmarks, |recents|)
  }

  /** Where each line sits: the titles and blanks at fixed places, recent `i` at 2 + i, bookmark `j` at 5 + |recents| + j. */
  lemma ScreenLayout(recents: seq<string>, bookmarks: seq<string>)
    requires Renderable(recents, bookmarks)
    ensures var s := Screen(recents, bookmarks);
      s[0] == Title("Recents") && s[1] == Blank &&
      s[2 + |recents|] == Blank && s[3 + |recents|] == Title("Bookmarks") && s[4 + |recents|] == Blank &&
      (forall i :: 0 <= i < |recents| ==> s[2 + i] == AsLine(recents[i], RecentLabel(i))) &&
      (forall j :: 0 <= j < |bookmarks| ==> s[5 + |recents| + j] == AsLine(bookmarks[j], BookmarkLabel(|recents|, j)))
  {
  }

  /** Pressing the label shown on any entry line selects exactly the path that line shows. */
  lemma ScreenSelectsWhatItShows(recents: seq<string>, bookmarks: seq<string>, n: nat)
    requires Renderable(recents, bookmarks)
    requires n < |Screen(recents, bookmarks)| && Screen(recents, bookmarks)[n].Entry?
    ensures var line := Screen(recents, bookmarks)[n];
      DigitValue(line.key).Some? &&
      Resolve(recents, bookmarks, DigitValue(line.key).value) == Some(line.dir + line.name)
  {
    ScreenLayout(recents, bookmarks);
    if n < 2 + |recents| {
      RecentLabelRoundTrip(recents, bookmarks, n - 2);
    } else {
      BookmarkLabelRoundTrip(recents, bookmarks, n - 5 - |recents|);
    }
  }

  /** The key on entry line `n` is the digit of its slot in `recents ++ bookmarks`. */
  lemma ScreenEntrySlot(recents: seq<string>, bookmarks: seq<string>, n: nat)
    requires Renderable(recents, bookmarks)
    requires n < |Screen(recents, bookmarks)| && Screen(recents, bookmarks)[n].Entry?
    ensures (2 <= n < 2 + |recents| && Screen(recents, bookmarks)[n].key == HexChar(n - 2)) ||
            (5 + |recents| <= n && Screen(recents, bookmarks)[n].key == HexChar(n - 5))
  {
    var head, mid := [Title("Recents"), Blank], [Blank, Title("Bookmarks"), Blank];
    var rs, bs := Entries(recents, 0), Entries(bookmarks, |recents|);
    var s := Screen(recents, bookmarks);
    assert s == head + rs + mid + bs;
    if n < 2 {
      assert false;
    } else if n < 2 + |recents| {
      assert s[n] == rs[n - 2];
    } else if n < 5 + |recents| {
      assert false;
    } else {
      assert s[n] == bs[n - 5 - |recents|];
    }
  }

  /** The labels on the screen are pairwise distinct. */
  lemma ScreenLabelsDistinct(recents: seq<string>, bookmarks: seq<string>, m: nat, n: nat)
    requires Renderable(recents, bookmarks)
    requires m < n < |Screen(recents, bookmarks)|
    requires Screen(recents, bookmarks)[m].Entry? && Screen(recents, bookmarks)[n].Entry?
    ensures Screen(recents, bookmarks)[m].key != Screen(recents, bookmarks)[n].key
  {
    ScreenEntrySlot(recents, bookmarks, m);
    ScreenEntrySlot(recents, bookmarks, n);
    var a := if m < 2 + |recents| then m - 2 else m - 5;
    var c := if n < 2 + |recents| then n - 2 else n - 5;
    HexCharInjective(a, c);
  }

  /** `ui`: builds the line list with two loops, reading but never changing the state. */
  method Ui(app: Store.App) returns (lines: seq<Line>)
    requires Renderable(app.recents, app.bookmarks)
    ensures lines == Screen(app.recents, app.bookmarks)
  {
    var recents, bookmarks := app.recents, app.bookmarks;
    var entries := Entries(recents, 0);
    lines := [Title("Recents"), Blank];
    for i := 0 to |recents|
      invariant lines == [Title("Recents"), Blank] + entries[..i]
    {
      lines := lines + [AsLine(recents[i], HexChar(i))];
      assert entries[..i + 1] == entries[..i] + [entries[i]];
    }
    assert entries[..|recents|] == entries;
    lines := lines + [Blank, Title("Bookmarks"), Blank];
    var head := lines;
    var marks := Entries(bookmarks, |recents|);
    for j := 0 to |bookmarks|
      invariant lines == head + marks[..j]
    {
      lines := lines + [AsLine(bookmarks[j], HexChar(j + |recents|))];
      assert marks[..j + 1] == marks[..j] + [marks[j]];
    }
    assert marks[..|bookmarks|] == marks;
  }
}
