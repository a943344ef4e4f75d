/**
 * The interactive loop `run_app`: redraw, wait for an event (or the tick
 * timeout), dispatch a key press. Events arrive as a finite sequence; a
 * poll that times out is the `Tick` event.
 */
module Session {
  import opened Wrappers
  import opened Hex
  import opened Selection
  import Store
  import View

  datatype KeyKind = Press | Repeat | Release
  datatype KeyCode = Esc | Char(c: char) | OtherKey
  /** `Tick`: `event::poll` timed out; `NonKey`: a mouse, focus, paste or resize event. */
  datatype Event = Tick | NonKey | Key(code: KeyCode, kind: KeyKind)

  /**
   * `Pending`: the loop keeps running; `Quit`: `Ok(None)`; `Launch(p)`: `Ok(Some(p))`;
   * `Panic`: `to_digit(16).unwrap()` failed on a key in '0'..='f' that is not a hex digit.
   */
  datatype Outcome = Pending | Quit | Launch(path: string) | Panic

  predicate IsPress(e: Event)
  {
    e.Key? && e.kind == Press
  }

  /** One pass of the dispatch in `run_app`. */
  function Step(recents: seq<string>, bookmarks: seq<string>, e: Event): (o: Outcome)
    ensures o == Quit <==> IsPress(e) && (e.code == Esc || e.code == Char('q'))
    ensures o == Panic <==> IsPress(e) && e.code.Char? && '0' <= e.code.c <= 'f' && DigitValue(e.code.c).None?
    ensures o.Launch? <==> (IsPress(e) && e.code.Char? && DigitValue(e.code.c).Some? &&
                            DigitValue(e.code.c).value < |recents| + |bookmarks|)
    ensures o.Launch? ==> o.path == (recents + bookmarks)[DigitValue(e.code.c).value]
  {
    match e
    case Key(code, kind) =>
      if kind != Press then Pending
      else (
        match code
        case Esc => Quit
        case Char(c) =>
          if c == 'q' then Quit
          else if '0' <= c <= 'f' then (
            match DigitValue(c)
            case None => Panic
            case Some(k) => (
              match Resolve(recents, bookmarks, k)
              case Some(p) => Launch(p)
              case None => Pending
            )
          )
          else Pending
        case OtherKey => Pending
      )
    case _ => Pending
  }

  /** The loop over a whole event sequence: the first event that is not a no-op decides. */
  function Run(recents: seq<string>, bookmarks: seq<string>, events: seq<Event>): (o: Outcome)
    ensures o.Pending? <==> forall i :: 0 <= i < |events| ==> Step(recents, bookmarks, events[i]).Pending?
    ensures o.Launch? ==> o.path in recents + bookmarks
  {
    if events == [] then Pending
    else
      var o := Step(recents, bookmarks, events[0]);
      if o.Pending? then
        var rest := Run(recents, bookmarks, events[1..]);
        assert forall i :: 1 <= i < |events| ==> events[i] == events[1..][i - 1];
        rest
      else o
  }

  /** The outcome is that of the first decisive event. */
  lemma {:induction false} RunFirstDecisive(recents: seq<string>, bookmarks: seq<string>, events: seq<Event>, n: nat)
    requires n < |events|
    requires forall i :: 0 <= i < n ==> Step(recents, bookmarks, events[i]).Pending?
    requires !Step(recents, bookmarks, events[n]).Pending?
    ensures Run(recents, bookmarks, events) == Step(recents, bookmarks, events[n])
  {
    if n > 0 {
      RunFirstDecisive(recents, bookmarks, events[1..], n - 1);
    }
  }

  /** Running on `a + b` is running on `a`, then, if still running, on `b`. */
  lemma {:induction false} RunAppend(recents: seq<string>, bookmarks: seq<string>, a: seq<Event>, b: seq<Event>)
    ensures Run(recents, bookmarks, a + b) ==
      if Run(recents, bookmarks, a).Pending? then Run(recents, bookmarks, b) else Run(recents, bookmarks, a)
  {
    if a != [] {
      assert (a + b)[1..] == a[1..] + b;
      RunAppend(recents, bookmarks, a[1..], b);
    } else {
      assert a + b == b;
    }
  }

  /** Esc and 'q' quit whatever came before, as long as the loop was still running. */
  lemma QuitKeys(recents: seq<string>, bookmarks: seq<string>, before: seq<Event>, code: KeyCode, after: seq<Event>)
    requires code == Esc || code == Char('q')
    requires Run(recents, bookmarks, before).Pending?
    ensures Run(recents, bookmarks, before + [Key(code, Press)] + after) == Quit
  {
    RunAppend(recents, bookmarks, before, [Key(code, Press)] + after);
    assert before + [Key(code, Press)] + after == before + ([Key(code, Press)] + after);
  }

  /** An upper-case hex key acts like the lower-case one. */
  lemma UpperCaseKey(recents: seq<string>, bookmarks: seq<string>, c: char, kind: KeyKind)
    requires 'A' <= c <= 'F'
    ensures Step(recents, bookmarks, Key(Char(c), kind)) == Step(recents, bookmarks, Key(Char((c as int + 32) as char), kind))
  {
    UpperCaseDigit(c);
  }

  /** Two recents and one bookmark: keys 0, 1, 2 open them, 3 to f do nothing, Esc still quits. */
  lemma TwoRecentsOneBookmark(k: char)
    requires '3' <= k <= '9' || 'a' <= k <= 'f'
    ensures var r, b := ["/a/1", "/b/2"], ["/c/3"];
      Run(r, b, [Key(Char('0'), Press)]) == Launch("/a/1") &&
      Run(r, b, [Key(Char('1'), Press)]) == Launch("/b/2") &&
      Run(r, b, [Key(Char('2'), Press)]) == Launch("/c/3") &&
      Run(r, b, [Key(Char(k), Press), Key(Esc, Press)]) == Quit
  {
  }

  /**
   * `run_app`: draw, then take the next event, until one decides the outcome.
   * The state is only read: the method modifies nothing.
   */
  method RunApp(app: Store.App, events: seq<Event>) returns (o: Outcome)
    requires View.Renderable(app.recents, app.bookmarks)
    ensures o == Run(app.recents, app.bookmarks, events)
  {
    var i := 0;
    while i < |events|
      invariant 0 <= i <= |events|
      invariant Run(app.recents, app.bookmarks, events) == Run(app.recents, app.bookmarks, events[i..])
    {
      var frame := View.Ui(app);
      assert events[i..][1..] == events[i + 1..];
      o := Step(app.recents, app.bookmarks, events[i]);
      if !o.Pending? {
        return;
      }
      i := i + 1;
    }
    return Pending;
  }
}
