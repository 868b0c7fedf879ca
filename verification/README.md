# go-push core, modelled in Dafny

go-push runs lists of shell commands and file uploads against remote hosts
over SSH. Before it runs anything it resolves each host from a YAML
configuration: address and port, credentials, and a variable map in which the
host's own variables override the global ones. Every command line, and every
upload's file name and destination, then goes through a `{{key}}` template
engine against that map. While a command runs, the host's output is watched
for a `[sudo…]…:` elevation prompt, and the host's password is written back
whenever one appears.

This project models that core as pure functions over byte strings and proves
what it does:

- `bytes.dfy` (module `Bytes`): a Go string as a sequence of bytes, with
  `strings.HasPrefix`, first-occurrence search and counting.
- `results.dfy` (module `Results`): a `Result` type for errors and panics, and
  `GoMap`, a Go map value that may be the nil map.
- `template.dfy` (module `TemplateEngine`): `Template` and `getVariable`.
  - A recursive definition, plus the index loop of the Go code (`TemplateScan`
    calling `GetVariable`), proved equal. The loop takes the byte copy as a
    parameter: with Go's byte-to-rune conversion it is the code as written,
    with a plain byte copy it is the corrected engine.
  - Lemmas for identity without braces, substitution, dropped stray braces,
    unterminated placeholders, single pass and failure on the first unmapped
    key.
  - The code as written, whose byte-to-rune conversion is a finding below.
- `commands.dfy` (module `Commands`): the `Host`, `Bash`, `Upload` and
  `Command` records and their `WithTemplate` operations.
- `prompt.dfy` (module `Prompt`): `listenForPasswordPrompt` as a function from
  the output stream to the transcript and the writes.
  - It is written twice and the two are proved equal. One form follows the
    code's `ReadByte`, `ReadString(']')` and `ReadString(':')` calls. The other
    is a byte-at-a-time state machine with phases `Scanning`, `InBracket` and
    `InPromptTail`.
- `config.dfy` (module `Config`): the configuration records, credential and
  address resolution, the merge of global variables (a finding below),
  command dispatch on the `type` tag, and `ParseClient` without the SSH
  handshake.

In these places the code does something a reader might not expect; the model
follows the code:
- A `{` that is not followed by a second `{` is dropped by `Template`, not
  copied through (`TemplateEngine.TemplateStrayBraces`).
- When the stream ends inside a bracket or a prompt tail, the text read since
  the `[` or the `]` is not in the printed transcript, because `ReadString`
  returns it together with the error and the loop breaks without keeping it
  (`Prompt.TranscriptIsStreamLessPending`).
- A `download` command is not a separate case: it is decoded and run as bash
  (`Config.DownloadRunsAsBash`).

model/host.go declares `Host` with `Address`, `Port`, `Password` and `Client`
fields but no `Variables`. model/command.go and config/config.go both read and
set `host.Variables`, so the model's `Host` carries the variables. It leaves
out `Port`, which `ParseClient` never sets, and `Client`.

## Model

| member | source | states |
|---|---|---|
| TemplateEngine.Template | model/command.go:184-221 | A failing template names a key that the map does not hold |
| TemplateEngine.TemplateScan | model/command.go:184-202 | The index loop with `getVariable` inside returns, success or failure, exactly what the recursive definition returns for the same byte copy: with Go's byte-to-rune conversion the code as written (`TemplateAsWritten`), with a plain byte copy the corrected `Template` |
| TemplateEngine.GetVariable | model/command.go:204-221 | From index `i`, the loop stops at the first `}}`. It returns the index of that pair's second `}` with the value of the text before it, or a failure naming that text when it is unmapped. With no `}}` ahead it returns the end of the value and the empty string |
| TemplateEngine.TemplateIdentity | model/command.go:184-202 | A string with no `{` comes back unchanged under every map, `}` included |
| TemplateEngine.TemplatePlainPrefix | model/command.go:196-197 | A `{`-free prefix is copied and the scan carries on after it unchanged |
| TemplateEngine.TemplateStrayBraces | model/command.go:188-195 | With no `{{` anywhere, the result is the input with every `{` removed and nothing else changed |
| TemplateEngine.TemplateStrayPrefix | model/command.go:188-197 | A prefix that opens no placeholder comes through with every `{` removed, also when a placeholder follows it, as long as its last `{` is not completed to `{{` by the next byte; the scan carries on after it unchanged |
| TemplateEngine.TemplateStrayBeforePlaceholderExample | model/command.go:188-195 | `a{b{{k}}` with `k` set to `v` gives `abv`: the stray `{` is dropped and the placeholder still substituted |
| TemplateEngine.TemplatePlaceholder | model/command.go:189-195 | `{{k}}` followed by `q` gives the value of `k` followed by the template of `q`; an unmapped `k` fails naming `k` |
| TemplateEngine.TemplateSubstitution | model/command.go:184-216 | The text on both sides of a mapped placeholder is kept: `p{{k}}q` becomes `p`, then the value of `k`, then `q` |
| TemplateEngine.TemplateUnterminated | model/command.go:206-220 | A `{{` with no later `}}` drops the rest of the string, with no lookup and no failure |
| TemplateEngine.ExpandSuccessMapsAll | model/command.go:210-215 | A template that succeeds found every key it reached in the map |
| TemplateEngine.ExpandFailsOnFirstUnmapped | model/command.go:210-214 | A failing template names the first key, in scan order, that is missing from the map |
| TemplateEngine.TemplateSucceedsIffMapped | model/command.go:204-216 | A template succeeds exactly when every key it reaches is in the map |
| TemplateEngine.ExpandFrame | model/command.go:211 | The result depends on the map only through the keys the scan looks up |
| TemplateEngine.TemplateSinglePass | model/command.go:193-194 | A substituted value is not scanned again: a value spelling `{{y}}` comes out literally |
| TemplateEngine.TemplateDeployExample | model/command.go:184-202 | `deploy {{env}}` with `env` set to `prod` gives `deploy prod` |
| TemplateEngine.TemplateMissingExample | model/command.go:211-214 | `{{missing}}` under the empty map fails naming `missing` |
| TemplateEngine.AsWrittenAgreesOnAscii | model/command.go:196-197 | The byte-to-rune copy of the code as written agrees with a byte copy on ASCII input |
| TemplateEngine.AsWrittenMangles | model/command.go:197 | The code as written turns the single byte 0xC3 into the two bytes 0xC3 0x83; the corrected engine returns it unchanged |
| TemplateEngine.RuneBytes | model/command.go:197 | Go's byte-to-string conversion keeps a byte below 0x80. A higher byte becomes two bytes, a UTF-8 lead byte in 0xC0-0xDF and a continuation byte in 0x80-0xBF, that decode back to it |
| Commands.TemplateLines | model/command.go:36-38 | On success, the same number of lines in the same order, line `i` being the template of line `i`. On failure, the error of some line, with every earlier line succeeding |
| Commands.BashWithTemplate | model/command.go:35-40 | `Bash.WithTemplate` keeps the count and order of the lines and templates each one; a failure names an unmapped key |
| Commands.BashWithTemplateSucceedsIff | model/command.go:35-40 | `Bash.WithTemplate` succeeds exactly when every line's template does |
| Commands.TemplateLinesIdentity | model/command.go:35-40 | Command lines with no `{` are left exactly as they are |
| Commands.UploadWithTemplate | model/command.go:121-127 | The `template` flag is kept, and the filename and destination are their templates. A failure comes from the filename, or from the destination after the filename succeeded |
| Commands.WithTemplate | model/command.go:31-33 | The templating step of `Bash.Run` (and likewise of `Upload.Run`, lines 129-131): the command keeps its kind, its payload is exactly the result of its own `WithTemplate`, and it fails exactly when that does, with the same error |
| Prompt.Listen | model/command.go:85-117 | The watcher writes at most one answer per `[` in the stream, and every write is the password followed by a newline |
| Prompt.ReadBracket | model/command.go:94-100 | After a `[` the watcher writes at most one more answer than the `[`s that follow, each of them the password and a newline |
| Prompt.ReadPromptTail | model/command.go:100-112 | After a `[sudo…]` the watcher writes at most one more answer than the `[`s that follow, each of them the password and a newline |
| Prompt.ListenIsStateMachine | model/command.go:85-117 | The reads of the code and the three-phase state machine give the same transcript and writes on every stream |
| Prompt.RunKeepsEveryByte | model/command.go:93-105 | The transcript followed by the bytes still pending is exactly everything read, in order |
| Prompt.TranscriptIsStreamLessPending | model/command.go:85-117 | The transcript is a prefix of the stream. It is the whole stream exactly when no bytes are pending: the stream does not end with text read after an unclosed `[`, or after the `]` of an unanswered `[sudo…]` |
| Prompt.ListenPlain | model/command.go:88-94 | Output with no `[` is copied to the transcript and causes no write |
| Prompt.ReadBracketAt | model/command.go:95-100 | The bracket text runs up to and including the first `]` and is kept; only text starting with `sudo` moves on to the prompt tail |
| Prompt.ReadPromptTailAt | model/command.go:101-108 | The prompt tail runs up to and including the first `:`, is kept, and is answered with one write |
| Prompt.PromptAnswered | model/command.go:94-112 | A `[sudo…]…:` prompt, with any `[`-free text before it, is kept in the transcript and answered by exactly one write of the password and a newline, ahead of whatever follows |
| Prompt.OtherBracketIgnored | model/command.go:94-100 | A bracket whose text does not start with `sudo` is copied and nothing is written |
| Prompt.PromptUnanswered | model/command.go:100-104 | A `[sudo…]` whose `:` never arrives gets no write, and the bytes after its `]` are dropped |
| Prompt.SudoPromptExample | model/command.go:85-117 | The stream `...[sudo] password for bob:` gets exactly one write of the password and a newline |
| Prompt.OtherBracketExample | model/command.go:85-117 | The stream `[other] text` gets no write and is copied whole |
| Config.GetUsername | config/config.go:20-25 | The host's user when it names one, else the global user |
| Config.GetPassword | config/config.go:27-32 | The host's password when the host names a USER, else the global password |
| Config.CredentialsFromOneSource | config/config.go:20-32 | User and password always come from the same place, chosen only by whether the host names a user |
| Config.HostPasswordNeedsHostUser | config/config.go:27-32 | A host password without a host user is never used. A host user with no password logs in with the empty password |
| Config.GetAddr | config/config.go:34-39 | `address:port` with an empty port replaced by `22` and stored back; nothing else in the record changes |
| Config.GetAddrIdempotent | config/config.go:34-39 | Resolving the address again, from the updated record, gives the same address and record |
| Config.GetAddrExamples | config/config.go:34-39 | `db1` with no port gives `db1:22`; with port `2200` it gives `db1:2200` |
| Config.Merge | config/config.go:132-139 | The merged map has every key of either map. Where both have a key, the host's value wins; otherwise the global value is used |
| Config.MergeIdempotent | config/config.go:132-139 | Merging the same global variables twice is merging them once |
| Config.MergeUnchangedIff | config/config.go:132-139 | The host's map comes back unchanged exactly when every global key is already in it |
| Config.AddGlobalVariables | config/config.go:132-139 | The corrected merge reads a nil host map as empty and gives the union of keys, with the host winning |
| Config.AddGlobalVariablesLoop | config/config.go:132-139 | The loop over the global map, taken in any key order, ends in the same map, or the same panic, as the code as written |
| Config.NilHostVariablesPanic | config/config.go:132-139 | A host with no `variables` under globals `env: prod` panics in the code as written; the corrected merge gives `env: prod` |
| Config.AsWrittenMergeAgrees | config/config.go:132-139 | The code as written panics exactly on a nil host map with global keys to copy; otherwise it equals the corrected merge |
| Config.Dispatch | config/config.go:86-99 | The `upload` type becomes an upload from the upload decoding; every other type becomes bash from the bash decoding. The entry fails exactly when the decoding its type selects fails, with that decoding's error; the other decoding is never consulted |
| Config.DownloadRunsAsBash | config/config.go:86-99 | A `download` entry is decoded and run as bash |
| Config.ParseCommands | config/config.go:84-102 | One command per entry, in order, each as its type dictates; otherwise the first entry's decode error |
| Config.ParseClient | config/config.go:117-130 | The host's password and the login password are the same one, and login user and password come from one source. The address is `GetAddr`'s, and the variables are the corrected merge |
| Config.ParsedHostTemplates | config/config.go:117-122 | In a parsed host's commands, `{{k}}` gives the host's own value when it has one, the global value otherwise, and fails naming `k` when neither has it |

## Left out

- SSH sessions, pseudo-terminals, pipes, `ssh.Dial`, `ParseClients`, the host-key callback, and `Bash.run`/`Upload.run` with scp are foreign calls and I/O. `Command.Run` is modelled only as its templating step (`Commands.WithTemplate`).
- The certificate path is carried in `HostConfig`, and the source never reads it.
- `RewriteTemplateFile` is left out: it reads and writes files and names them by the clock. The templating it applies to the file contents is the code as written, `TemplateAsWritten`, so the first finding below also mangles every byte of 0x80 or more in the contents of a file uploaded with `template: true`.
- `config.New` is left out, along with YAML reading and `mapstructure` decoding. A `CommandConfig` carries the decode outcome for each command shape as an input.
- main.go's sequential and concurrent runs over hosts, wait groups and printing are concurrency and I/O.
- In `listenForPasswordPrompt`:
  - the 100 ms sleep before answering is a clock;
  - a failed write to the session input is not modelled, so writes always succeed;
  - a read error other than end of stream is treated as end of stream;
  - the final print is modelled as the returned transcript.
- TemplateEngine.Template: a key missing from the map makes the Go code panic, naming the key; the model returns `Failure(MissingKey(key))` with the same key instead, and `Bash.WithTemplate`, `Upload.WithTemplate` and `Command.Run` pass that failure on where Go unwinds.
- `Bash.WithTemplate` has a value receiver but writes through the shared slice, so the caller's command lines change too. The model returns a new value and does not model this aliasing.
- `addGlobalVariables` writes the global entries into the host's own map, which is shared with the configuration's host entry. The model returns the merged map and does not model the sharing.
- `GetAddr` stores the default port into its receiver's copy of the record. The model returns the updated record; `ParseClient` discards it, as the Go code does.
- The `async` flag of the global section is carried but not used by any modelled operation.

## Findings

| source | as written | input that shows it | evidently intended | confidence | as-written member | corrected member |
|---|---|---|---|---|---|---|
| model/command.go:197 | `output += string(value[i])` converts the byte to a rune, so every byte of 0x80 or more becomes its two-byte UTF-8 encoding; this reaches command lines, upload names and, through `RewriteTemplateFile` (model/command.go:178), the contents of templated uploads | the one-byte string 0xC3 under any map: the result is 0xC3 0x83, and UTF-8 text such as `é` comes back as `Ã©` | plain bytes are copied unchanged, so a string without `{` is returned as it is | high, not executed | TemplateEngine.AsWrittenMangles (on TemplateEngine.TemplateAsWritten, which TemplateEngine.TemplateScan computes with `RuneConversion`) | TemplateEngine.Template, with TemplateEngine.TemplateIdentity proved for every byte string |
| config/config.go:132-139 | the global variables are written into the host's map, which is nil when the host's YAML entry has no `variables` key, and a write to a nil Go map panics | a host without `variables` under a global section with `env: prod` | a host without variables receives the global ones | high, not executed | Config.NilHostVariablesPanic (on Config.AddGlobalVariablesAsWritten) | Config.AddGlobalVariables, used by Config.ParseClient |
