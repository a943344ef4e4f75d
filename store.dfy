/**
 * The persisted launcher state of `src/main.rs`: the `App` record with its
 * `recents` deque (most recent first) and `bookmarks` vector, the commands of
 * `main` that change them in place, and `App::save`.
 */
module Store {
  import opened Wrappers
  import opened Hex

  /** `recents.len() > 10` triggers a `pop_back`. */
  const MaxRecents: nat := 10
  /** `bookmarks.len() < 6` guards a `push`. */
  const MaxBookmarks: nat := 6

  /** The serialized form of `App`: both lists, in order. */
  datatype Snapshot = Snapshot(recents: seq<string>, bookmarks: seq<string>)

  predicate NoDup(s: seq<string>)
  {
    forall i, j :: 0 <= i < j < |s| ==> s[i] != s[j]
  }

  /** The invariant the commands keep: both bounds and no repeated recent. */
  predicate Bounded(s: Snapshot)
  {
    |s.recents| <= MaxRecents && |s.bookmarks| <= MaxBookmarks && NoDup(s.recents)
  }

  /** `s` with index `i` taken out (`Vec::remove`, `VecDeque::remove` in range). */
  function Removed(s: seq<string>, i: nat): (r: seq<string>)
    requires i < |s|
    ensures |r| == |s| - 1
    ensures forall k :: 0 <= k < i ==> r[k] == s[k]
    ensures forall k :: i <= k < |r| ==> r[k] == s[k + 1]
  {
    s[..i] + s[i + 1..]
  }

  // ---------------------------------------------------------------------------
  // Recording a recent path (the direct-open branch of `main`)
  // ---------------------------------------------------------------------------

  /** `s` with the first occurrence of `x`, if any, taken out. */
  function RemoveFirst(s: seq<string>, x: string): (r: seq<string>)
    ensures |r| == if x in s then |s| - 1 else |s|
  {
    if s == [] then []
    else if s[0] == x then s[1..]
    else
      assert x in s <==> x in s[1..];
      [s[0]] + RemoveFirst(s[1..], x)
  }

  /** Exactly one copy of `x` is removed, if there is one, and nothing else. */
  lemma {:induction false} RemoveFirstMultiset(s: seq<string>, x: string)
    ensures multiset(RemoveFirst(s, x)) == multiset(s) - multiset{x}
  {
    if s != [] {
      assert s == [s[0]] + s[1..];
      if s[0] != x {
        RemoveFirstMultiset(s[1..], x);
      }
    }
  }

  /** Recents after recording `x`: old occurrence removed, `x` in front, one back entry popped on overflow. */
  function Recorded(rs: seq<string>, x: string): (r: seq<string>)
    ensures |r| >= 1 && r[0] == x
    ensures |rs| <= MaxRecents ==> |r| == if x in rs then |rs| else Min(|rs| + 1, MaxRecents)
  {
    var l := [x] + RemoveFirst(rs, x);
    if |l| > MaxRecents then l[..|l| - 1] else l
  }

  function Min(a: int, b: int): (m: int) { if a < b then a else b }

  lemma {:induction false} RemoveFirstAt(s: seq<string>, x: string, i: nat)
    requires i < |s| && s[i] == x && x !in s[..i]
    ensures RemoveFirst(s, x) == s[..i] + s[i + 1..]
  {
    if i > 0 {
      assert s[0] == s[..i][0];
      assert s[1..][..i - 1] == s[1..i];
      assert x !in s[1..][..i - 1] by { assert s[1..i] <= s[..i][1..]; }
      RemoveFirstAt(s[1..], x, i - 1);
      assert s[..i] == [s[0]] + s[1..][..i - 1];
      assert s[i + 1..] == s[1..][i..];
    }
  }

  lemma {:induction false} RemoveFirstAbsent(s: seq<string>, x: string)
    requires x !in s
    ensures RemoveFirst(s, x) == s
  {
    if s != [] {
      RemoveFirstAbsent(s[1..], x);
    }
  }

  lemma RemoveFirstNoDup(s: seq<string>, x: string)
    requires NoDup(s)
    ensures NoDup(RemoveFirst(s, x)) && x !in RemoveFirst(s, x)
  {
    if x in s {
      var i :| 0 <= i < |s| && s[i] == x;
      assert x !in s[..i];
      RemoveFirstAt(s, x, i);
      var r := Removed(s, i);
      assert r == RemoveFirst(s, x);
      forall j, k | 0 <= j < k < |r| ensures r[j] != r[k] {
        var j' := if j < i then j else j + 1;
        var k' := if k < i then k else k + 1;
        assert r[j] == s[j'] && r[k] == s[k'];
      }
      forall j | 0 <= j < |r| ensures r[j] != x {
        var j' := if j < i then j else j + 1;
        assert r[j] == s[j'];
      }
    } else {
      RemoveFirstAbsent(s, x);
    }
  }

  lemma ConsNoDup(x: string, s: seq<string>)
    requires NoDup(s) && x !in s
    ensures NoDup([x] + s)
  {
    var l := [x] + s;
    forall i, j | 0 <= i < j < |l| ensures l[i] != l[j] {
      assert l[j] == s[j - 1];
      if i > 0 { assert l[i] == s[i - 1]; }
    }
  }

  lemma PrefixNoDup(s: seq<string>, n: nat)
    requires NoDup(s) && n <= |s|
    ensures NoDup(s[..n])
  {
    assert forall i :: 0 <= i < n ==> s[..n][i] == s[i];
  }

  /** Recording keeps the recents duplicate-free. */
  lemma RecordedNoDup(rs: seq<string>, x: string)
    requires NoDup(rs)
    ensures NoDup(Recorded(rs, x))
  {
    RemoveFirstNoDup(rs, x);
    var l := [x] + RemoveFirst(rs, x);
    ConsNoDup(x, RemoveFirst(rs, x));
    PrefixNoDup(l, if |l| > MaxRecents then |l| - 1 else |l|);
    assert l[..|l|] == l;
  }

  /** Recording keeps both bounds and the absence of duplicates. */
  lemma RecordedBounded(s: Snapshot, x: string)
    requires Bounded(s)
    ensures Bounded(Snapshot(Recorded(s.recents, x), s.bookmarks))
  {
    RecordedNoDup(s.recents, x);
  }

  /** A path already at index `i` moves to the front; the others keep their order and the length is unchanged. */
  lemma RecordedMovesToFront(rs: seq<string>, x: string, i: nat)
    requires |rs| <= MaxRecents
    requires i < |rs| && rs[i] == x && x !in rs[..i]
    ensures Recorded(rs, x) == [x] + rs[..i] + rs[i + 1..]
  {
    RemoveFirstAt(rs, x, i);
  }

  /** A new path goes in front; only the oldest (back) entry is dropped on overflow. */
  lemma RecordedNewPath(rs: seq<string>, x: string)
    requires x !in rs
    ensures Recorded(rs, x) == [x] + (if |rs| < MaxRecents then rs else rs[..|rs| - 1])
  {
    RemoveFirstAbsent(rs, x);
    var l := [x] + rs;
    if |rs| >= MaxRecents {
      assert l[..|l| - 1] == [x] + rs[..|rs| - 1];
    }
  }

  /** Recording the same path twice in a row changes nothing the second time. */
  lemma RecordedTwice(rs: seq<string>, x: string)
    requires |rs| <= MaxRecents
    ensures Recorded(Recorded(rs, x), x) == Recorded(rs, x)
  {
    var r := Recorded(rs, x);
    assert x !in r[..0];
    RemoveFirstAt(r, x, 0);
    assert [x] + r[1..] == r;
  }

  /** Recording A, then B, then A again on empty recents gives [A, B], not [A, B, A]. */
  lemma RecordedAgainAfterOther(a: string, b: string)
    requires a != b
    ensures Recorded(Recorded(Recorded([], a), b), a) == [a, b]
  {
    assert Recorded([], a) == [a];
    assert Recorded([a], b) == [b, a] by { RemoveFirstAbsent([a], b); }
    assert [b, a][..1] == [b];
    RemoveFirstAt([b, a], a, 1);
  }

  // ---------------------------------------------------------------------------
  // The delete command, as written
  // ---------------------------------------------------------------------------

  /** `key.chars().next()` then `to_digit(16)`; None where either unwrap panics. */
  function KeyDigit(key: string): Option<nat>
  {
    if |key| == 0 then None else DigitValue(key[0])
  }

  /** `VecDeque::remove`: removes index `k` when it is in range and does nothing otherwise. */
  function DequeRemove(s: seq<string>, k: nat): seq<string>
  {
    if k < |s| then Removed(s, k) else s
  }

  /**
   * The state after `--delete key`, or None where the command panics before saving:
   * an empty or non-hex key, the underflow of `idx - recents.len()` and an
   * out-of-range `Vec::remove`.
   */
  function AfterDelete(s: Snapshot, key: string): (o: Option<Snapshot>)
    // a bookmark key removes exactly that bookmark
    ensures KeyDigit(key).Some? && |s.recents| <= KeyDigit(key).value < |s.recents| + |s.bookmarks| ==>
      o == Some(Snapshot(s.recents, Removed(s.bookmarks, KeyDigit(key).value - |s.recents|)))
    // the key of the last recent removes that recent and the first bookmark too
    ensures KeyDigit(key).Some? && KeyDigit(key).value + 1 == |s.recents| && |s.bookmarks| > 0 ==>
      o == Some(Snapshot(s.recents[..|s.recents| - 1], s.bookmarks[1..]))
    // every other key panics
    ensures o.Some? <==> (KeyDigit(key).Some? &&
      ((|s.recents| <= KeyDigit(key).value < |s.recents| + |s.bookmarks|) ||
       (KeyDigit(key).value + 1 == |s.recents| && |s.bookmarks| > 0)))
  {
    match KeyDigit(key)
    case None => None
    case Some(k) =>
      var rs := DequeRemove(s.recents, k);
      assert k + 1 == |s.recents| ==> rs == s.recents[..k];
      assert |s.bookmarks| > 0 ==> Removed(s.bookmarks, 0) == s.bookmarks[1..];
      if k < |rs| then None
      else if k - |rs| < |s.bookmarks| then Some(Snapshot(rs, Removed(s.bookmarks, k - |rs|)))
      else None
  }

  /** On a bookmark key, delete removes exactly the entry that key selects in `recents ++ bookmarks`. */
  lemma {:induction false} DeleteBookmarkKey(s: Snapshot, key: string)
    requires KeyDigit(key).Some?
    requires |s.recents| <= KeyDigit(key).value < |s.recents| + |s.bookmarks|
    ensures AfterDelete(s, key).Some?
    ensures AfterDelete(s, key).value.recents + AfterDelete(s, key).value.bookmarks
         == Removed(s.recents + s.bookmarks, KeyDigit(key).value)
  {
    var k := KeyDigit(key).value;
    var t := AfterDelete(s, key).value;
    var c := s.recents + s.bookmarks;
    assert t.recents == s.recents;
    assert t.recents + t.bookmarks == Removed(c, k) by {
      assert |t.recents + t.bookmarks| == |Removed(c, k)|;
      forall i | 0 <= i < |Removed(c, k)|
        ensures (t.recents + t.bookmarks)[i] == Removed(c, k)[i]
      {
        if i < |s.recents| {
        } else if i < k {
          assert t.bookmarks[i - |s.recents|] == s.bookmarks[i - |s.recents|];
        } else {
          assert t.bookmarks[i - |s.recents|] == s.bookmarks[i - |s.recents| + 1];
        }
      }
    }
  }

  /** Only the first character of the key is read: whatever follows it changes nothing. */
  lemma DeleteReadsFirstChar(s: Snapshot, key: string)
    requires |key| > 0
    ensures AfterDelete(s, key) == AfterDelete(s, key[..1])
  {
  }

  /** Delete never breaks the invariant. */
  lemma AfterDeleteBounded(s: Snapshot, key: string)
    requires Bounded(s) && AfterDelete(s, key).Some?
    ensures Bounded(AfterDelete(s, key).value)
  {
    var t := AfterDelete(s, key).value;
    if t.recents != s.recents {
      assert t.recents == s.recents[..|s.recents| - 1];
      assert forall i, j :: 0 <= i < j < |t.recents| ==> t.recents[i] == s.recents[i] && t.recents[j] == s.recents[j];
    }
  }

  // ---------------------------------------------------------------------------
  // The state object
  // ---------------------------------------------------------------------------

  /** `iter().position(|x| x.eq(&item))`: the first index holding `x`. */
  method Position(s: seq<string>, x: string) returns (pos: Option<nat>)
    ensures pos.Some? ==> pos.value < |s| && s[pos.value] == x && x !in s[..pos.value]
    ensures pos.None? ==> x !in s
  {
    var i := 0;
    while i < |s|
      invariant 0 <= i <= |s|
      invariant x !in s[..i]
    {
      if s[i] == x {
        return Some(i);
      }
      assert s[..i + 1] == s[..i] + [s[i]];
      i := i + 1;
    }
    assert s[..i] == s;
    return None;
  }

  class App {
    var recents: seq<string>
    var bookmarks: seq<string>
    /** What `app.db` holds, parsed: None when it is missing, empty or not a valid state. */
    var db: Option<Snapshot>

    function State(): (s: Snapshot)
      reads this
    {
      Snapshot(recents, bookmarks)
    }

    /** `serde_json::from_str(..).unwrap_or_default()` on the contents of `app.db`. */
    constructor Load(blob: Option<Snapshot>)
      ensures db == blob
      ensures blob.Some? ==> State() == blob.value
      ensures blob.None? ==> recents == [] && bookmarks == []
    {
      db := blob;
      if blob.Some? {
        recents, bookmarks := blob.value.recents, blob.value.bookmarks;
      } else {
        recents, bookmarks := [], [];
      }
    }

    /** `App::save`: overwrite `app.db` with the current state; loading it back gives that state. */
    method Save()
      modifies this`db
      ensures db == Some(State())
    {
      db := Some(State());
    }

    /** `--bookmark path`: append and save only while fewer than six bookmarks exist; no de-duplication. */
    method AddBookmark(path: string) returns (saved: bool)
      modifies this`bookmarks, this`db
      ensures saved <==> |old(bookmarks)| < MaxBookmarks
      ensures bookmarks == if saved then old(bookmarks) + [path] else old(bookmarks)
      ensures db == if saved then Some(State()) else old(db)
      ensures recents == old(recents)
      ensures old(Bounded(State())) ==> Bounded(State())
    {
      saved := |bookmarks| < MaxBookmarks;
      if saved {
        bookmarks := bookmarks + [path];
        Save();
      }
    }

    /** `--delete key`, as written: see AfterDelete. `completed` is false where the command panics, before saving. */
    method Delete(key: string) returns (completed: bool)
      modifies this`recents, this`bookmarks, this`db
      ensures completed <==> AfterDelete(old(State()), key).Some?
      ensures completed ==> State() == AfterDelete(old(State()), key).value && db == Some(State())
      ensures !completed ==> db == old(db) && bookmarks == old(bookmarks)
      ensures !completed ==> (recents ==
        if KeyDigit(key).Some? then DequeRemove(old(recents), KeyDigit(key).value) else old(recents))
      ensures completed && old(Bounded(State())) ==> Bounded(State())
    {
      if |key| == 0 {
        return false;
      }
      var d := DigitValue(key[0]);
      if d.None? {
        return false;
      }
      var k := d.value;
      if k < |recents| {
        recents := Removed(recents, k);
      }
      if k < |recents| {
        // `idx - app.recents.len()` underflows
        return false;
      }
      var j := k - |recents|;
      if j >= |bookmarks| {
        // `Vec::remove` out of bounds
        return false;
      }
      bookmarks := Removed(bookmarks, j);
      Save();
      completed := true;
      if old(Bounded(State())) {
        AfterDeleteBounded(old(State()), key);
      }
    }

    /** The direct-open branch: move `path` to the front of recents, cap at ten, save. */
    method RecordRecent(path: string)
      modifies this`recents, this`db
      ensures recents == Recorded(old(recents), path)
      ensures bookmarks == old(bookmarks)
      ensures db == Some(State())
      ensures old(Bounded(State())) ==> Bounded(State())
    {
      var pos := Position(recents, path);
      match pos {
        case Some(i) =>
          RemoveFirstAt(recents, path, i);
          recents := Removed(recents, i);
        case None =>
          RemoveFirstAbsent(recents, path);
      }
      recents := [path] + recents;
      if |recents| > MaxRecents {
        recents := recents[..|recents| - 1];
      }
      Save();
      if old(Bounded(State())) {
        RecordedBounded(old(State()), path);
      }
    }
  }
}
