# tags_server core in Dafny

A model of the two pieces of logic in `tags_server` that carry design weight:

- **The tag parser** (`tags.rs`). `Tag::from_str` turns free text into a hierarchical tag. It splits the text on `.` and trims each piece. Pieces that trim to nothing are dropped. The first surviving piece with a UTF-8 byte outside `0x21..=0x7E` is rejected, and text with no surviving piece is an empty-tag error. `Display` joins the components with `.` again.
- **The startup sequence** (`main.rs`). `main` turns the command line into a configuration: the defaults, or a JSON file whose omitted fields fall back to the defaults. It commits that configuration to the write-once `CONFIG` slot and builds the route table. That table has `/`, a `/debug` route only when `debug` is set, and a 404 fallback.

Modules, following the program's structure:

| file | module | models |
|---|---|---|
| `wrappers.dfy` | `Wrappers` | `Option` and `Result` |
| `unicode.dfy` | `Unicode` | `char::is_whitespace`, `u8::is_ascii_graphic`, the UTF-8 bytes of a `str` |
| `text.dfy` | `Text` | `str::split` on one character, `join`, `str::trim` |
| `tags.dfy` | `Tags` | `Tag`, `Tag::SEP`, `FromStr`, `Display` |
| `tag_examples.dfy` | `TagExamples` | the repository's test input and other concrete parses |
| `server_config.dfy` | `ServerConfig` | `Config`, `Default`, `#[serde(default)]`, the `OnceLock` slot |
| `server.dfy` | `Server` | the argument match of `main`, the commit, and route-table assembly and dispatch |

Three modelling decisions follow the code closely:

- `InvalidComponent` carries only the component, because the code's error message names only the component (`tags.rs:25`).
- A wrong argument count is `UsageError`, separate from `UnknownOption`. The code reports "Unknown option" for `[prog, opt, v]` with `opt` other than `--config` (`main.rs:78`), and "Only expected --config <filename>" for any other argument count (`main.rs:86`).
- The graphic check runs on the component's UTF-8 bytes, as the code does, and `NonGraphicByteIffChar` proves it agrees with a per-character check.

## Model

| member | source | states |
|---|---|---|
| `Unicode.IsWhitespace` | tags_server/src/tags.rs:19 | The whitespace test `trim` applies: among ASCII characters exactly space and tab through carriage return, and no whitespace character is ASCII-graphic. |
| `Unicode.EncodeChar` | tags_server/src/tags.rs:24 | A char's UTF-8 form is 1 to 4 bytes. An ASCII char is the single byte of its own value. Every byte of a non-ASCII char is at least 0x80. |
| `Unicode.Encode` | tags_server/src/tags.rs:24 | The bytes `bytes()` yields: each character contributes one to four bytes, so the byte count is between the character count and four times it. |
| `Unicode.AnyNonGraphicByteIffSome` | tags_server/src/tags.rs:24 | The short-circuiting `any` over the bytes is true exactly when some byte is not ASCII-graphic. |
| `Unicode.NonGraphicByteIffChar` | tags_server/src/tags.rs:24 | A component fails the byte check exactly when one of its chars lies outside `'!'..'~'`. |
| `Unicode.WhitespaceIsNotGraphic` | tags_server/src/tags.rs:19-24 | No whitespace char is ASCII-graphic, and no ASCII-graphic char is whitespace. |
| `Text.Split` | tags_server/src/tags.rs:18 | Splitting gives at least one piece. No piece contains the separator. Joining the pieces with the separator gives back the input. |
| `Text.SplitAppend` | tags_server/src/tags.rs:18 | Splitting `a + "." + b` gives the pieces of `a` followed by the pieces of `b`. |
| `Text.SplitNoSeparator` | tags_server/src/tags.rs:18 | Text without a separator is a single piece. |
| `Text.SplitJoin` | tags_server/src/tags.rs:18 | Splitting undoes joining for any non-empty list of separator-free pieces. |
| `Text.JoinShape` | tags_server/src/tags.rs:43 | `Join` models `path.join(SEP)`: joining starts with the first piece and is as long as all the pieces together plus one separator per gap; the empty list joins to the empty string. |
| `Text.Trim` | tags_server/src/tags.rs:19 | The result is a contiguous slice of the input. Everything cut off either end is whitespace. The result neither starts nor ends with whitespace. It is empty exactly when the input is all whitespace. |
| `Text.TrimIdentity` | tags_server/src/tags.rs:19 | Text that neither starts nor ends with whitespace is left unchanged. |
| `Text.TrimIdempotent` | tags_server/src/tags.rs:19 | Trimming twice is the same as trimming once. |
| `Tags.Survivors` | tags_server/src/tags.rs:18-22 | The pieces kept by the filter are never empty and are at most as many as the input pieces. |
| `Tags.SurvivorsAppend` | tags_server/src/tags.rs:18-22 | The filter works piece by piece, so it distributes over concatenation. |
| `Tags.SurvivorsOfValid` | tags_server/src/tags.rs:19-24 | Valid components pass the filter unchanged and none of them fails the byte check. |
| `Tags.SurvivorsEmpty` | tags_server/src/tags.rs:19-22 | No piece survives exactly when every piece is all whitespace. |
| `Tags.Scan` | tags_server/src/tags.rs:16-29 | The loop succeeds exactly when no kept piece fails the byte check, and then it pushes the kept pieces in order. Otherwise it names the first failing kept piece. |
| `Tags.Parse` | tags_server/src/tags.rs:15-38 | On success the tag is valid and its components are exactly the kept pieces, in order. The empty-tag error occurs exactly when no piece is kept. The invalid-component error occurs exactly when some kept piece fails, and it names the first one. An invalid piece therefore wins over emptiness. |
| `Tags.Render` | tags_server/src/tags.rs:41-44 | For a valid tag, splitting the rendered text on `.` gives back its components. |
| `Tags.ParseRender` | tags_server/src/tags.rs:15-44 | Parsing the rendering of a valid tag gives back that tag. |
| `Tags.ParseIdempotent` | tags_server/src/tags.rs:15-44 | Re-parsing the rendering of a parsed tag gives the same result. |
| `Tags.ParseImage` | tags_server/src/tags.rs:18-37 | A tag is valid exactly when some text parses to it. |
| `Tags.JoinBlank` | tags_server/src/tags.rs:18-22 | A join of separator-free pieces holds only separators and whitespace exactly when every piece is all whitespace. |
| `Tags.EmptyTagIffBlank` | tags_server/src/tags.rs:18-33 | The empty-tag error occurs exactly for text made only of `.` and whitespace. |
| `Tags.FirstInvalidUnique` | tags_server/src/tags.rs:24-26 | A list has at most one first invalid component. |
| `Tags.FirstInvalidExtend` | tags_server/src/tags.rs:24-26 | Components appended after the first invalid one do not change which one is first. |
| `Tags.LaterPiecesNotExamined` | tags_server/src/tags.rs:24-26 | Once `a` fails on an invalid piece, `a + "." + b` fails with the same error for every `b`. |
| `Tags.ParseValidSurvivors` | tags_server/src/tags.rs:31-37 | When the kept pieces form a valid tag, the text parses to that tag. |
| `TagExamples.Example` | tags_server/src/tags.rs:50 | `"a.hjeiwao..b,.c"` parses to `["a","hjeiwao","b,","c"]`, which renders as `"a.hjeiwao.b,.c"`. |
| `TagExamples.InvalidBeatsEmpty` | tags_server/src/tags.rs:24-33 | `"a b"` fails with the invalid-component error naming `"a b"`, not with the empty-tag error. |
| `TagExamples.BlankTexts` | tags_server/src/tags.rs:31-33 | `""`, `"..."` and `" . "` fail with the empty-tag error. |
| `ServerConfig.DefaultConfig` | tags_server/src/main.rs:18-25 | The default listens on 0.0.0.0 port 8888 with diagnostics off. |
| `ServerConfig.FromDocument` | tags_server/src/main.rs:11-16 | Each field comes from the document when present and from the default when omitted, independently of the other field. |
| `ServerConfig.CompleteDocumentRoundTrip` | tags_server/src/main.rs:11-16 | A document listing every field decodes to exactly the configuration it lists. |
| `ServerConfig.EmptyDocumentIsDefault` | tags_server/src/main.rs:11-25 | The empty JSON object decodes to the default configuration. |
| `ServerConfig.GetOrInit` | tags_server/src/main.rs:74 | Afterwards the slot is filled, and the value handed back is the slot's. A filled slot keeps its value. An empty slot takes the new one. |
| `ServerConfig.GetOrInitFirstWriterWins` | tags_server/src/main.rs:83 | A second initialisation changes nothing and hands back the first writer's value. |
| `Server.Resolve` | tags_server/src/main.rs:66-87 | `[prog]` gives the defaults. `[prog, "--config", f]` gives a read error exactly when reading `f` fails. It gives a parse error exactly when the contents do not decode. Otherwise it gives the decoded document with defaults filled in. `[prog, opt, v]` with another `opt` is an unknown-option error, and every other length is a usage error. |
| `Server.BuildRouter` | tags_server/src/main.rs:91-95 | The table always routes `/`. It routes `/debug` exactly when `debug` is set, and no other path. The fallback is `not_found`. |
| `Server.Lookup` | tags_server/src/main.rs:91-95 | A path with no route goes to the fallback. A routed path goes to the handler of one of its routes. |
| `Server.Handle` | tags_server/src/main.rs:104-114 | `not_found` is the only handler that answers 404; `root` and `debug` answer 200. Only `debug` dumps the configuration, and what it dumps is the committed slot. |
| `Server.Dispatch` | tags_server/src/main.rs:91-95 | A `GET` of a routed path is answered by the handler of one of its routes; any other path is answered by the fallback. |
| `Server.Start` | tags_server/src/main.rs:66-95 | Startup fails exactly when resolving fails, and then commits nothing. On success the slot is filled and the router is built from the slot's value. A filled slot is never overwritten. An empty slot takes the resolved configuration. |
| `Server.RootAlwaysServed` | tags_server/src/main.rs:104-110 | `GET /` always answers 200 with the greeting. |
| `Server.DebugRouteIffEnabled` | tags_server/src/main.rs:92-95 | `GET /debug` answers 200 with a dump of the slot exactly when `debug` is set. Otherwise it answers 404 "Not found". |
| `Server.OtherPathsNotFound` | tags_server/src/main.rs:104-106 | Every path other than `/` and `/debug` answers 404 "Not found". |
| `Server.DefaultStartup` | tags_server/src/main.rs:82-84 | `[prog]` on an empty slot commits the default configuration, and `GET /debug` is then 404. |
| `Server.RestartKeepsFirstConfig` | tags_server/src/main.rs:74 | After a successful startup, running startup again leaves the first configuration in the slot, whatever the new arguments say. |
| `Server.RejectedArgumentsCommitNothing` | tags_server/src/main.rs:67-86 | A command line that is neither `[prog]` nor `[prog, "--config", f]` stops startup with the unknown-option error (three arguments) or the usage error (any other count), and leaves the slot as it was. |
| `Server.ConfigFileStartup` | tags_server/src/main.rs:68-95 | With `[prog, "--config", f]`, an unreadable file gives the read error and an undecodable one the parse error, and neither commits anything. Otherwise an empty slot takes the decoded document with defaults filled in, and `GET /debug` answers 200 exactly when the document sets `debug` to true. |

## Left out

- `str::split`, `str::trim` and `join` are modelled on `seq<char>` rather than on UTF-8 byte slices. Only the graphic check looks at bytes, via `Encode`.
- The whitespace test is the Unicode `White_Space` property written out as a table (`Unicode.IsWhitespace`). The general lemmas (`ParseRender`, `SurvivorsOfValid`, `EmptyTagIffBlank` and the rest) use only the fact that whitespace is never ASCII-graphic; `TagExamples.BlankTexts` also uses that U+0020 is whitespace.
- Error values are plain data. The file-and-line prefix and message text that the `error!` macro formats are left out. So are its `tracing` side effect, `Context`'s `Display` (which also logs), and the `unsafe impl Send/Sync for Context`. These are logging and concurrency, not logic.
- `std::fs::read_to_string` and `serde_json::from_str` are parameters of `Resolve` and `Start`, returning `None` on failure. How JSON is decoded, including which malformed field values fail, is not modelled.
- `SocketAddr` parsing is not modelled. The address is a structured value, and the default is written in that form.
- `OnceLock` is modelled only by its first-writer-wins behaviour, not its thread safety.
- Binding and serving (`axum::Server::bind`, `serve`, connect-info), the tokio runtime and logger set-up are network and process I/O, and are left out.
- Server.Lookup, Server.Dispatch: only `GET` requests are modelled. Axum's handling of other methods on a routed path is library behaviour.
- The `Debug` handler's `<pre>{:#?}</pre>` formatting is left out. Its body is modelled as a dump of the slot.
- The `#[test]` in `tags.rs` always panics, so that it prints the rendered tag. `TagExamples.Example` states the parse and the rendering it prints.
