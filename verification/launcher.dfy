/** One tick of the launcher's control-file poller (`load_view` in main.c): the file's
    content, if it could be read, is matched against a closed vocabulary of commands;
    anything else is a URL. The browser calls become `Action` values, the file read an
    `Option` input and the "done" write-back a boolean output. */
module Launcher {
  import opened Wrappers
  import opened GString

  /** The seven navigation and window commands. */
  datatype Command =
    | GoBack        // webkit_web_view_go_back
    | GoForward     // webkit_web_view_go_forward
    | Reload        // webkit_web_view_reload
    | Unfullscreen  // fullscreen_window(view, FALSE): wpe_toplevel_unfullscreen
    | Fullscreen    // fullscreen_window(view, TRUE): wpe_toplevel_fullscreen
    | Unmaximize    // maximize_window(view, FALSE): wpe_toplevel_unmaximize
    | Maximize      // maximize_window(view, TRUE): wpe_toplevel_maximize

  /** The control-file word for each command. */
  function Token(c: Command): CStr {
    match c
    case GoBack => "back"
    case GoForward => "forward"
    case Reload => "reload"
    case Unfullscreen => "unfullscreen"
    case Fullscreen => "fullscreen"
    case Unmaximize => "unmaximized"
    case Maximize => "maximized"
  }

  /** The acknowledgment the poller writes back, and the idle content it skips. */
  const Ack: CStr := "done"

  /** What a tick asks of the browser view. */
  datatype Action =
    | NoAction
    | Perform(command: Command)
    | LoadUri(uri: CStr)      // webkit_web_view_load_uri

  /** The outcome of one tick: the action, the remembered URL afterwards, whether
      "done" is written back, and the callback's return value (TRUE keeps the
      timer armed). */
  datatype Tick = Tick(action: Action, currentUri: Option<CStr>, ackWritten: bool, keepPolling: bool)

  /** True iff the trimmed text is one of the command words. */
  ghost predicate IsCommandText(t: string) {
    exists c :: Token(c) == t
  }

  /** Distinct commands have distinct words, and none of them is "done". */
  lemma TokensDistinct()
    ensures forall c, d :: Token(c) == Token(d) ==> c == d
    ensures forall c :: Token(c) != Ack
  {
  }

  /** A command word carries no white space at its edges, so trimming keeps it. */
  lemma TokenStripped(c: Command)
    ensures Strip(Token(c)) == Token(c)
  {
    StripNoEdgeSpace(Token(c));
  }

  /** "done" carries no white space at its edges either. */
  lemma AckStripped()
    ensures Strip(Ack) == Ack
  {
    StripNoEdgeSpace(Ack);
  }

  /** `trimmed_strcmp0(content, word) == 0` for a non-NULL content and word. */
  predicate Matches(content: CStr, word: CStr) {
    TrimmedStrcmp0(Some(content), Some(word)) == 0
  }

  /** Matching a command word is equality after trimming the content. */
  lemma MatchesToken(content: CStr)
    ensures forall c :: Matches(content, Token(c)) <==> Strip(content) == Token(c)
  {
    forall c ensures Matches(content, Token(c)) <==> Strip(content) == Token(c) {
      TokenStripped(c);
    }
  }

  /** The first command of `table` whose word the content matches: an
      `if`/`else if` chain over the words in the table's order. */
  function FirstMatch(table: seq<Command>, content: CStr): (r: Option<Command>)
    ensures r.Some? ==> r.value in table && Strip(content) == Token(r.value)
    ensures r.None? ==> forall i :: 0 <= i < |table| ==> Strip(content) != Token(table[i])
  {
    MatchesToken(content);
    if |table| == 0 then None
    else if Matches(content, Token(table[0])) then Some(table[0])
    else FirstMatch(table[1..], content)
  }

  /** The order in which load_view tries the command words. */
  const DispatchOrder: seq<Command> :=
    [GoBack, GoForward, Reload, Unfullscreen, Fullscreen, Unmaximize, Maximize]

  /** Where each command sits in DispatchOrder: every command is tried. */
  function Position(c: Command): (i: nat)
    ensures i < |DispatchOrder| && DispatchOrder[i] == c
  {
    match c
    case GoBack => 0
    case GoForward => 1
    case Reload => 2
    case Unfullscreen => 3
    case Fullscreen => 4
    case Unmaximize => 5
    case Maximize => 6
  }

  /** The command chain of load_view; None is its final `else`, the URL case. */
  function Dispatch(content: CStr): (r: Option<Command>)
    ensures r.Some? ==> Strip(content) == Token(r.value)
    ensures r.None? ==> !IsCommandText(Strip(content))
  {
    var r := FirstMatch(DispatchOrder, content);
    if r.None? then NoWordMatched(content); r else r
  }

  /** When the chain falls through, the trimmed content is no command word. */
  lemma NoWordMatched(content: CStr)
    requires FirstMatch(DispatchOrder, content).None?
    ensures !IsCommandText(Strip(content))
  {
    forall c ensures Strip(content) != Token(c) {
      var i := Position(c);
      assert Strip(content) != Token(DispatchOrder[i]);
    }
  }

  /** Each command word selects exactly its own command, and no other: since the
      words are pairwise distinct, at most one branch of the chain can fire. */
  lemma DispatchExact(content: CStr, c: Command)
    ensures Dispatch(content) == Some(c) <==> Strip(content) == Token(c)
  {
    TokensDistinct();
  }

  /** The order in which the command words are tried does not matter: any table
      listing every command picks the same command as load_view's chain. */
  lemma DispatchOrderIrrelevant(table: seq<Command>, content: CStr)
    requires forall c :: c in table
    ensures FirstMatch(table, content) == Dispatch(content)
  {
    var r := FirstMatch(table, content);
    if r.Some? {
      DispatchExact(content, r.value);
    } else {
      forall c ensures Strip(content) != Token(c) {
        assert c in table;
        var i :| 0 <= i < |table| && table[i] == c;
      }
    }
  }

  /** `load_view`: one tick of the poller, given what the file read returned
      (None when `g_file_get_contents` yields NULL) and the remembered URL. */
  function LoadView(read: Option<string>, currentUri: Option<CStr>): (t: Tick)
    ensures t.keepPolling
    // An unreadable file: nothing happens and nothing is written.
    ensures read.None? ==> t == Tick(NoAction, currentUri, false, true)
    // "done", with any surrounding white space: nothing happens and nothing is written.
    ensures read.Some? && Strip(AsCStr(read.value)) == Ack ==> t == Tick(NoAction, currentUri, false, true)
    // Every other readable content is acknowledged.
    ensures t.ackWritten <==> read.Some? && Strip(AsCStr(read.value)) != Ack
    // A command word runs exactly its command.
    ensures forall c :: t.action == Perform(c) <==> read.Some? && Strip(AsCStr(read.value)) == Token(c)
    // A load happens iff the content is neither "done" nor a command and no URL,
    // or a different one after trimming, is remembered.
    ensures t.action.LoadUri? <==>
              && read.Some?
              && Strip(AsCStr(read.value)) != Ack
              && !IsCommandText(Strip(AsCStr(read.value)))
              && (currentUri.None? || Strip(currentUri.value) != Strip(AsCStr(read.value)))
    // The URL loaded and remembered is the untrimmed content.
    ensures t.action.LoadUri? ==> t.action.uri == AsCStr(read.value) && t.currentUri == Some(t.action.uri)
    // Only a load changes the remembered URL.
    ensures !t.action.LoadUri? ==> t.currentUri == currentUri
  {
    AckStripped();
    TokensDistinct();
    match read
    case None => Tick(NoAction, currentUri, false, true)
    case Some(buf) =>
      var content := AsCStr(buf);
      if Matches(content, Ack) then Tick(NoAction, currentUri, false, true)
      else
        match Dispatch(content)
        case Some(c) => Tick(Perform(c), currentUri, true, true)
        case None =>
          if currentUri.None? || TrimmedStrcmp0(currentUri, Some(content)) != 0 then
            Tick(LoadUri(content), Some(content), true, true)
          else
            Tick(NoAction, currentUri, true, true)
  }

  /** The poller's world between ticks: the control file (None when absent or
      unreadable) and the remembered URL. */
  datatype Poller = Poller(file: Option<string>, currentUri: Option<CStr>)

  /** One tick applied to the world: a readable file that is not "done" is
      overwritten with "done"; otherwise the file is left alone. */
  function Poll(p: Poller): (r: (Poller, Action))
    ensures r.0.file == if p.file.Some? && Strip(AsCStr(p.file.value)) != Ack then Some(Ack) else p.file
    ensures r.0.currentUri == LoadView(p.file, p.currentUri).currentUri
    ensures r.1 == LoadView(p.file, p.currentUri).action
  {
    var t := LoadView(p.file, p.currentUri);
    (Poller(if t.ackWritten then Some(Ack) else p.file, t.currentUri), t.action)
  }

  /** The acknowledgment is idempotent: a tick right after a tick, with no other
      writer in between, does nothing and leaves the world as it found it. Like
      Poll, this takes the first tick's write-back of "done" to succeed; when
      g_file_set_contents fails, the same content is processed again next tick. */
  lemma {:induction false} AckIdempotent(p: Poller)
    ensures Poll(Poll(p).0).1 == NoAction
    ensures Poll(Poll(p).0).0 == Poll(p).0
  {
    var p1 := Poll(p).0;
    if p1.file == Some(Ack) {
      AsCStrOfCStr(Ack);
      AckStripped();
      TokensDistinct();
    }
  }

  /** Writing a command word, with any surrounding white space, yields that command
      and reads back as "done" after one tick; the remembered URL is untouched. */
  lemma CommandRoundTrip(c: Command, buf: CStr, lead: string, trail: string, uri: Option<CStr>)
    requires buf == lead + Token(c) + trail
    requires AllSpace(lead) && AllSpace(trail)
    ensures Poll(Poller(Some(buf), uri)) == (Poller(Some(Ack), uri), Perform(c))
  {
    AsCStrOfCStr(buf);
    StripNoEdgeSpace(Token(c));
    StripPadded(lead, Token(c), trail);
    TokensDistinct();
    var t := LoadView(Some(buf), uri);
    assert t.action == Perform(c) && t.ackWritten;
  }

  /** A URL equal, after trimming, to the remembered one is not reloaded, but the
      file is still acknowledged. */
  lemma RepeatedUrlNotReloaded(buf: CStr, uri: CStr)
    requires Strip(buf) == Strip(uri)
    requires Strip(buf) != Ack && !IsCommandText(Strip(buf))
    ensures Poll(Poller(Some(buf), Some(uri))) == (Poller(Some(Ack), Some(uri)), NoAction)
  {
    AsCStrOfCStr(buf);
  }

  /** An unreadable or deleted control file stays as it is and nothing happens. */
  lemma MissingFileIsNoOp(uri: Option<CStr>)
    ensures Poll(Poller(None, uri)) == (Poller(None, uri), NoAction)
  {
  }

  /** The URL handed to the browser keeps the white space around it: the comparison
      trims, the load does not. */
  lemma UntrimmedUrlIsLoaded(buf: CStr, lead: string, url: string, trail: string, uri: Option<CStr>)
    requires buf == lead + url + trail
    requires AllSpace(lead) && AllSpace(trail) && NoEdgeSpace(url)
    requires url != Ack && !IsCommandText(url)
    requires uri.None? || Strip(uri.value) != url
    ensures Poll(Poller(Some(buf), uri)) == (Poller(Some(Ack), Some(buf)), LoadUri(buf))
  {
    AsCStrOfCStr(buf);
    StripPadded(lead, url, trail);
  }
}
