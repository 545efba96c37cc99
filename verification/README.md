# wpe-simple-launcher: the control-file poller and the automation view limit

wpe-simple-launcher shows a single WPE WebKit browser view. The view is driven by a
control file that the launcher polls once a second. On each tick the launcher reads
the file. When the content, trimmed of white space, is one of the words `back`,
`forward`, `reload`, `unfullscreen`, `fullscreen`, `unmaximized` or `maximized`, it
runs that command. Any other content is taken as a URL and loaded, unless it matches
the remembered URL after trimming. After a command or a URL, the launcher writes
`done` back to the file. An unreadable file, and content that trims to `done`, cause
no action and no write-back: only the other contents are acknowledged.
In automation mode, a WebDriver-style session may attach to the one view, and to at
most one at a time.

This project models both decisions as pure Dafny functions:

- `gstring.dfy` (module `GString`) holds the C and GLib string primitives the logic
  rests on. These are NUL termination, `g_ascii_isspace`, `g_strchug`, `g_strchomp`,
  `g_strstrip`, `strcmp` and `g_strcmp0`, plus the launcher's own `trimmed_strcmp0`.
- `launcher.dfy` (module `Launcher`) holds one tick of `load_view`. Its input is the
  file read (None when `g_file_get_contents` yields NULL) and the remembered
  `current_uri`. Its outputs are an `Action`, the new `current_uri`, whether `done`
  is written back, and the callback's return value. `Poll` applies a tick to a
  modelled file.
- `automation.dfy` (module `Automation`) holds the `automation_views_limit_reached`
  flag with its `create-web-view` and `will-close` handlers. `Run` replays any
  sequence of these signals.
- `wrappers.dfy` (module `Wrappers`) holds `Option`, which stands for a nullable
  pointer.

The browser calls (`webkit_web_view_go_back`, `webkit_web_view_load_uri`,
`wpe_toplevel_maximize`, …) are constructors of `Action`. They are not executed.

Three details of the code that the model keeps:

- The URL that gets loaded and stored in `current_uri` is the raw, untrimmed file
  content (main.c:103-105). Trimming is used only for comparisons, so padded content
  is loaded with its padding. `UntrimmedUrlIsLoaded` states this.
- The file content is used as a C string. Every string function sees only what comes
  before the first NUL byte (`AsCStr`).
- White space is whatever `g_ascii_isspace` accepts: space, tab, line feed, form feed
  and carriage return. GLib's ASCII table does not count the vertical tab (0x0B), so
  trimming keeps it.

## Model

| member | source | states |
|---|---|---|
| GString.AsCStr | main.c:41-45 | the content C code sees is the longest NUL-free prefix of the bytes read: it is a prefix, and a NUL follows it when it is shorter |
| GString.AsCStrOfCStr | main.c:41-45 | content that holds no NUL is seen whole |
| GString.IsSpace | main.c:27-28 | the white-space set g_strstrip trims by, that of g_ascii_isspace: space, tab, line feed, form feed and carriage return, but not the vertical tab |
| GString.Chug | main.c:27-28 | g_strchug: the input without its leading white space |
| GString.Chomp | main.c:27-28 | g_strchomp: the input without its trailing white space |
| GString.LeadingSpace | main.c:27-28 | g_strchug's scan skips exactly the leading white space and stops at the first non-white-space character |
| GString.TrailingSpaceStart | main.c:27-28 | g_strchomp's backward scan cuts exactly the trailing white space and stops after the last non-white-space character |
| GString.Strip | main.c:27-28 | g_strstrip's result is no longer than its input, has no white space at either edge, and stays NUL-free |
| GString.StripIsSlice | main.c:27-28 | the stripped string is a contiguous slice of the input with only white space before and after it |
| GString.StripIsUniqueSlice | main.c:27-28 | any slice with only white space around it and none at its edges is exactly the stripped string, so stripping is well defined |
| GString.StripNoEdgeSpace | main.c:27-28 | a string with no white space at its edges is unchanged by stripping |
| GString.StripPadded | main.c:27-28 | white space added around a word is removed again by stripping |
| GString.StripIdempotent | main.c:27-28 | stripping twice is the same as stripping once |
| GString.Strcmp | main.c:31 | strcmp's result has a sign only (-1, 0 or 1) and is 0 exactly when the two strings are equal |
| GString.StrcmpAntisymmetric | main.c:31 | swapping strcmp's arguments negates the result |
| GString.Strcmp0 | main.c:31 | g_strcmp0 is 0 exactly when both arguments are NULL or equal, and NULL sorts before every string |
| GString.TrimmedStrcmp0 | main.c:20-38 | trimmed_strcmp0 is 0 exactly when both arguments are NULL or both strip to the same string; NULL sorts first |
| GString.TrimmedStrcmp0Antisymmetric | main.c:20-38 | swapping trimmed_strcmp0's arguments negates the result |
| Launcher.Token | main.c:86-98 | the literal word the control file must hold for each of the seven commands |
| Launcher.Matches | main.c:86-98 | a branch of the chain fires when trimmed_strcmp0(content, word) is 0 |
| Launcher.TokensDistinct | main.c:86-99 | the seven command words are pairwise distinct and none of them is "done" |
| Launcher.TokenStripped | main.c:86-99 | a command word has no white space at its edges, so stripping keeps it |
| Launcher.AckStripped | main.c:80 | "done" has no white space at its edges |
| Launcher.MatchesToken | main.c:86-99 | comparing the content with a command word through trimmed_strcmp0 is equality of the trimmed content with that word |
| Launcher.FirstMatch | main.c:86-99 | the command the chain picks is in the table and its word equals the trimmed content; when none is picked, no word in the table equals the trimmed content |
| Launcher.Position | main.c:86-99 | every command is tried by the chain, at a fixed place in its order |
| Launcher.Dispatch | main.c:86-100 | a picked command's word equals the trimmed content; falling through to the URL case means the trimmed content is no command word |
| Launcher.NoWordMatched | main.c:86-100 | when the chain falls through, the trimmed content is no command word |
| Launcher.DispatchExact | main.c:86-99 | the chain picks command c if and only if the trimmed content equals c's word, so at most one branch fires |
| Launcher.DispatchOrderIrrelevant | main.c:86-99 | trying the command words in any order that lists all of them gives the same command as load_view's order |
| Launcher.LoadView | main.c:71-113 | a tick always returns TRUE. Unreadable content or "done" means no action, no write-back and no change to current_uri. Other content is always acknowledged. A command word runs exactly its command. A load happens iff the content is neither "done" nor a command and no URL, or a different one after trimming, is remembered. The load uses the untrimmed content, which becomes current_uri. Only a load changes current_uri |
| Launcher.Poll | main.c:73-110 | a readable file whose content does not trim to "done" is overwritten with "done"; any other file is left as it was |
| Launcher.AckIdempotent | main.c:75-112 | a tick right after a tick, with no other writer and with the first tick's write-back succeeding, takes no action and changes neither the file nor current_uri |
| Launcher.CommandRoundTrip | main.c:86-110 | a command word with any surrounding white space runs that command, leaves current_uri alone, and the file reads "done" afterwards |
| Launcher.RepeatedUrlNotReloaded | main.c:100-110 | a URL equal after trimming to the remembered one is not loaded again, but the file is still acknowledged |
| Launcher.MissingFileIsNoOp | main.c:73-78 | an unreadable or deleted file takes no action and is not recreated |
| Launcher.UntrimmedUrlIsLoaded | main.c:100-110 | a new URL padded with white space is loaded and remembered with its padding, and the file is acknowledged |
| Automation.CreateWebView | main.c:126-133 | create-web-view hands out the one view exactly when the flag is clear, and the flag is set afterwards |
| Automation.WillClose | main.c:135-139 | will-close leaves the flag clear |
| Automation.Run | main.c:126-139 | replaying signals gives one outcome per signal, and only a create can hand out the view |
| Automation.RunFlagIsAttached | main.c:17 | starting from a clear flag, the flag is set exactly when some create came after the last will-close |
| Automation.RunPrefix | main.c:126-139 | the outcomes of a prefix of the signals do not depend on the signals after it |
| Automation.RunGrants | main.c:126-139 | a signal hands out the view exactly when it is a create and no view is attached before it |
| Automation.AtMostOneAttached | main.c:126-139 | between any two creates that both hand out the view there is a will-close, so no second view is given while one is attached |
| Automation.CloseReenablesCreate | main.c:126-139 | after will-close the next create succeeds |

## Left out

- File I/O (main.c:41-50): the read is an `Option` input and the write-back is the boolean `ackWritten`. `Poll` assumes the write succeeds; the source ignores a failed `g_file_set_contents`.
- The `g_warning` and `g_message` logging in `load_view`: it has no effect on the decisions.
- Browser and window calls: they are `Action` constructors. Whether they succeed, and their asynchronous completion, are not modelled.
- `main` (main.c:153-216) is not modelled. This covers view creation, the 1024×768 resize, the `--maximized` start, the 1000 ms timer, the main loop, and the signal handlers that are installed only after the loop returns; these are calls into the libraries.
- CLI parsing and its exit codes are left out: an unknown option returns 1 (main.c:163-166), and a missing path prints the usage message and returns 1 (main.c:169-172). The parsing itself is done by `getopt_long`, which is not part of this model.
- `on_web_view_close`, `on_signal_quit` and `on_web_context_automation_started`: they only forward to the library.
- Memory management (`g_strdup`, `g_free`, `g_object_unref`): values are immutable here.
- The race with an external writer between the read and the `done` write-back: it needs concurrency, which this sequential model does not have.
- GString.Strcmp: returns only the sign of the comparison (-1, 0 or 1). C promises only the sign, and the launcher only tests for 0.
- Characters stand for the C string's bytes. No character encoding is modelled.
