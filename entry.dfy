/**
 * `main`: one invocation, from the loaded state and the parsed arguments to
 * what happens to the process. Argument parsing, the path made absolute
 * against the working directory, and the exec of the editor are outside.
 */
module Entry {
  import opened Wrappers
  import opened Store
  import Session
  import View

  /** The parsed command line: `[PATH]`, `--bookmark <PATH>`, `--delete <KEY>`; PATH is already absolute. */
  datatype Args = Args(path: Option<string>, bookmark: Option<string>, delete: Option<string>)

  /**
   * `Exit`: `Ok(())`; `Crash`: a panic; `Exec(p)`: hand `p` to the editor;
   * `Running`: the interactive loop is still waiting for a decisive event.
   */
  datatype Next = Exit | Crash | Exec(path: string) | Running

  /** How `main` ends after `run_app`. */
  function AfterSession(o: Session.Outcome): (next: Next)
    ensures next.Exec? <==> o.Launch?
    ensures o.Launch? ==> next.path == o.path
    ensures next == Crash <==> o == Session.Panic
    ensures next == Exit <==> o == Session.Quit
    ensures next == Running <==> o == Session.Pending
  {
    match o
    case Launch(p) => Exec(p)
    case Panic => Crash
    case Quit => Exit
    case Pending => Running
  }

  /**
   * The branches of `main` in their order: a bookmark wins over a delete, a
   * delete over a path, and with none of them the interactive loop runs. Its
   * first draw panics (`Crash`) unless every path has a '/' and there are at
   * most sixteen entries; a bookmark added without a '/' leads there.
   */
  method Dispatch(app: App, args: Args, events: seq<Session.Event>) returns (next: Next)
    modifies app
    ensures args.bookmark.Some? ==>
      next == Exit && app.recents == old(app.recents) &&
      app.bookmarks == (if |old(app.bookmarks)| < MaxBookmarks then old(app.bookmarks) + [args.bookmark.value] else old(app.bookmarks)) &&
      app.db == (if |old(app.bookmarks)| < MaxBookmarks then Some(app.State()) else old(app.db))
    ensures args.bookmark.None? && args.delete.Some? ==>
      var after := AfterDelete(old(app.State()), args.delete.value);
      next == (if after.Some? then Exit else Crash) &&
      (after.Some? ==> app.State() == after.value && app.db == Some(after.value)) &&
      (after.None? ==> app.db == old(app.db))
    ensures args.bookmark.None? && args.delete.None? && args.path.Some? ==>
      next == Exec(args.path.value) && app.recents == Recorded(old(app.recents), args.path.value) &&
      app.bookmarks == old(app.bookmarks) && app.db == Some(app.State())
    ensures args == Args(None, None, None) ==>
      next == (if View.Renderable(app.recents, app.bookmarks)
               then AfterSession(Session.Run(app.recents, app.bookmarks, events)) else Crash) &&
      app.State() == old(app.State()) && app.db == old(app.db)
  {
    if args.bookmark.Some? {
      var _ := app.AddBookmark(args.bookmark.value);
      return Exit;
    }
    if args.delete.Some? {
      var completed := app.Delete(args.delete.value);
      return if completed then Exit else Crash;
    }
    if args.path.Some? {
      app.RecordRecent(args.path.value);
      return Exec(args.path.value);
    }
    if !View.Renderable(app.recents, app.bookmarks) {
      // `rsplit_once('/').unwrap()` or `from_digit(..).unwrap()` panics in the first draw
      return Crash;
    }
    var o := Session.RunApp(app, events);
    return AfterSession(o);
  }
}
