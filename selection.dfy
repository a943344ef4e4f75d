/**
 * The one-hex-digit keyspace over `recents ++ bookmarks`: how `run_app` turns
 * a digit into a path, and how `ui` labels the entries so that pressing a
 * label selects what it labels.
 */
module Selection {
  import opened Wrappers
  import opened Hex

  /** `recents.get(idx)`, else `bookmarks.get(idx - recents.len())`: slot `k` of the combined list. */
  function Resolve(recents: seq<string>, bookmarks: seq<string>, k: nat): (sel: Option<string>)
    ensures sel == if k < |recents| + |bookmarks| then Some((recents + bookmarks)[k]) else None
  {
    if k < |recents| then Some(recents[k])
    else if k - |recents| < |bookmarks| then Some(bookmarks[k - |recents|])
    else None
  }

  /** Label of recent `i`. */
  function RecentLabel(i: nat): (c: char)
    requires i < 16
    ensures DigitValue(c) == Some(i)
  {
    HexChar(i)
  }

  /** Label of bookmark `j` when there are `recentCount` recents. */
  function BookmarkLabel(recentCount: nat, j: nat): (c: char)
    requires recentCount + j < 16
    ensures DigitValue(c) == Some(recentCount + j)
  {
    HexChar(recentCount + j)
  }

  /** Pressing the label of recent `i` selects recent `i`. */
  lemma RecentLabelRoundTrip(recents: seq<string>, bookmarks: seq<string>, i: nat)
    requires i < |recents| && |recents| + |bookmarks| <= 16
    ensures DigitValue(RecentLabel(i)) == Some(i)
    ensures Resolve(recents, bookmarks, DigitValue(RecentLabel(i)).value) == Some(recents[i])
  {
  }

  /** Pressing the label of bookmark `j` selects bookmark `j`. */
  lemma BookmarkLabelRoundTrip(recents: seq<string>, bookmarks: seq<string>, j: nat)
    requires j < |bookmarks| && |recents| + |bookmarks| <= 16
    ensures DigitValue(BookmarkLabel(|recents|, j)) == Some(|recents| + j)
    ensures Resolve(recents, bookmarks, DigitValue(BookmarkLabel(|recents|, j)).value) == Some(bookmarks[j])
  {
  }
}
