# Verification of the rspf policy daemon

A Dafny model of the layer that rspf puts around SPF evaluation: framing of the client's byte
stream, parsing of requests, the connection loop, exemption, SRS unwrapping, the decision, the
wording of answers and headers, configuration validation and hot reload.

`dafny verify dfyconfig.toml` checks everything.

## Modules

| file | models |
|---|---|
| `Text.dfy`, `Bytes.dfy`, `Wrappers.dfy` | the string and slice operations of Rust's library that are used, UTF-8 |
| `Request.dfy`, `Codec.dfy`, `RoundTrip.dfy` | attribute lines, the incremental decoder, printing and reading back |
| `Response.dfy`, `Connection.dfy` | answers on the wire, one connection as a state machine |
| `Template.dfy`, `Rendering.dfy`, `Validation.dfy` | template validation, successive replaces, configuration validation |
| `Base64.dfy`, `Srs.dfy` | SRS0 addresses |
| `Whitelist.dfy`, `Override.dfy` | static exemptions, the overriding resolver |
| `Configuration.dfy`, `Header.dfy`, `Engine.dfy`, `Server.dfy` | the decision and the handling of one request |
| `Framed.dfy` | configurations with one-block answers |
| `Reload.dfy` | hot reload against requests in flight |

## What the model assumes

- `from_utf8_lossy` is a function from bytes to text. Chunk invariance holds for every such
  function; one-line answers need that newline-free bytes give newline-free text, and reading back
  needs that well-encoded text is read as itself.
- HMAC-SHA1 is an unknown function from key and message to 20 bytes; the day is a parameter.
- Parsing and printing IP addresses, parsing networks and SPF records, and the SPF evaluator are
  parameters. Client addresses print as two or more hexadecimal digits, colons and dots.
- An SPF evaluation is any adaptive strategy of DNS questions, depending on the configured limits and
  the check, and cut off after any number of questions; DNS is any resolver.
- The framed stream of tokio_util ends with an I/O error when the client hangs up inside a block or
  reading the socket fails, and just ends otherwise; the loop is left in each case.
- Result words are those of section 2.6 of RFC 7208; the display code of the evaluator library is
  not part of this model.
- Loads and stores of the two shared cells are sequentially consistent.

## Where the code and its comments differ

- `rspf/src/config/policy.rs:12` promises rejection of anything but Pass under `spf_not_pass`. Error results go
  by their own toggles only; `Engine.NotPassRejects` states exactly when the promise holds.
- `rspf/src/config/policy.rs:18-20` says a `no_check` result never affects the action. That is so for HELO
  (`Engine.HeloMatters`) and for the severity; the MAIL FROM result still shows in the header text,
  and `Engine.NoCheckNeverShows` states exactly when the promise holds.
- `rspf/src/spf/override_resolver.rs:18` takes keys to be lowercased, but nothing lowercases the configured
  ones. `Override.OverlayExactly` states exactly which tables work.
- Five successive replaces are not one substitution when sender or helo can form a later
  placeholder. `Rendering.FaithfulExactly` gives exactly the pairs that are safe, at every client
  address, and `Rendering.SenderShownAsHelo` a sender that is not.
- Validation lets an unclosed `{` through (`Template.ValidatePlaceholders`), and newlines in templates
  and `authserv_id`. `Engine.OneLineExactly` gives exactly the configurations with one-line answers,
  `Framed.OneBlockExactly` exactly those with one-block answers, and `Engine.TwoAnswersForOne` an
  accepted template that breaks both.
- `[spf]` and `[overrides]` are read at start-up only, as the repository's own README says (lines
  80-83). `Server.ReloadIsRestartExactly` gives exactly the reloads that do as much as a restart, and
  `Server.StaleOverride` one that does not.
- Helo names go into the `Received-SPF` header unchecked. The header still determines all it was
  built from, for every helo (`Header.EqualHeaders`); what must be plain is the cause text, and
  `Header.QuotedCauseAmbiguous` shows what quotes in it could do. A reader that goes from the end
  needs `;`-free helo names (`Header.BuiltReadBack`).
- Whitelist domains are matched against the sender as received, before SRS unwrapping.
- `[srs]` is reloaded too, though the list in the repository's own README (lines 78-80) leaves it out.

## Model

| member | source | states |
|---|---|---|
| `Text.SplitJoin` | rspf/src/proto/codec.rs:35-40 | splitting joined separator-free pieces gives them back |
| `Text.LowerCharExactly` | rspf/src/whitelist/mod.rs:172-175 | exactly the 26 capitals of ASCII are lowered, each to the small letter at its place in the alphabet |
| `Bytes.Utf8Injective` | rspf/src/srs.rs:93-98 | texts with equal bytes are equal, so a MAC over bytes is over that text only |
| `Bytes.Utf8Exactly` | rspf/src/proto/codec.rs:54-59 | a character's bytes are the one sequence that encodes its number by section 3 of RFC 3629 |
| `Bytes.Utf8Newline` | rspf/src/proto/codec.rs:57 | encoded text has a newline byte exactly when the text has a newline |
| `Request.FromLines` | rspf/src/proto/request.rs:44-73 | the parsing loop computes the fold of the lines, or the first malformed one |
| `Request.ParseMeaning` | rspf/src/proto/request.rs:44-73 | no lines: EmptyRequest; otherwise the first line without `=` is the error; otherwise every attribute has the value of the last line with its key |
| `Request.GetSet` | rspf/src/proto/request.rs:54-70 | storing an attribute changes that attribute and no other, and never puts a reserved one among the extras |
| `Request.FieldsByName` | rspf/src/proto/request.rs:54-70 | which field holds which attribute, by the attributes' names |
| `Request.SameAttributes` | rspf/src/proto/request.rs:13-27 | a request is determined by what it says about every attribute |
| `Request.ParsedOneLine` | rspf/src/proto/request.rs:50-70 | attributes of newline-free lines have no newline |
| `Codec.FindDoubleNewline` | rspf/src/proto/codec.rs:47-49 | the offset of the first blank line, None exactly when there is none |
| `Codec.FindsTerminator` | rspf/src/proto/codec.rs:27-33 | a block with no blank line inside or at its end is cut exactly at its terminator, whatever follows |
| `Codec.Decode` | rspf/src/proto/codec.rs:26-43 | one decode call: its result and the buffer it leaves; it waits exactly when the buffer holds no complete block |
| `Codec.BlockShape` | rspf/src/proto/codec.rs:27-42 | a cut block has no blank line and no newline at its end; the empty-line filter drops at most its first line; EmptyRequest arises exactly when the buffer starts with a blank line |
| `Codec.DrainAppend` | rspf/src/proto/codec.rs:26-43 | decoding what has arrived and then the rest is decoding everything at once, errors and leftover included |
| `Codec.ChunkInvariance` | rspf/src/proto/codec.rs:26-48 | for every stream and every cut into chunks: same requests, same first error, same leftover |
| `Codec.FeedAndDrain` | rspf/src/server.rs:161-178 | the feed-and-drain loop over the in-place buffer gives the whole stream's result |
| `Codec.DrainedBuffer` | rspf/src/proto/codec.rs:26-29 | a drained buffer without error holds no complete block |
| `Codec.FramingUnique` | rspf/src/proto/codec.rs:16-18 | a stream has at most one reading as blocks and an incomplete rest |
| `Codec.FramingExists` | rspf/src/proto/codec.rs:16-18 | every stream has one |
| `Codec.DrainReadsFraming` | rspf/src/proto/codec.rs:26-43 | the decoder reads exactly the blocks of that framing, up to the first malformed one |
| `Codec.DrainedOneLine` | rspf/src/proto/codec.rs:35-42 | no attribute of a decoded request has a newline |
| `RoundTrip.BlockReadsBack` | rspf/src/proto/codec.rs:31-42 | the block of a printed request parses to that request |
| `RoundTrip.PipelinedRoundTrip` | rspf/src/proto/codec.rs:26-43 | any list of requests, printed with attributes in any order and cut anywhere, is read back with nothing left over |
| `RoundTrip.DescriptionExists` | rspf/src/proto/request.rs:44-73 | every request that can be parsed from one-line text can be printed |
| `RoundTrip.PrintableExactly` | rspf/src/proto/request.rs:44-73 | a request can be printed so as to be read back if and only if it says something and its keys and values fit on lines, keys without `=` |
| `Response.Encode` | rspf/src/proto/codec.rs:54-59 | an answer's bytes are appended to the output buffer |
| `Response.ReplyReadBack` | rspf/src/proto/response.rs:19-28 | a reader of replies gets back the answer a reply was written for if and only if it is no rejection worded like a verb |
| `Response.AnswersFraming` | rspf/src/proto/response.rs:19-34 | answers are read back as exactly one block each if and only if none has an empty line, that is a newline at its end or before another one |
| `Response.CutShortFraming` | rspf/src/server.rs:179-183 | what is read when the last answer was written only in part |
| `Connection.HandleConnection` | rspf/src/server.rs:157-186 | the loop over the two in-place buffers goes through the states of the machine |
| `Connection.StepKeepsInv` | rspf/src/server.rs:162-185 | every event keeps the accounting between bytes received, requests taken and bytes sent |
| `Connection.ConnectionRuns` | rspf/src/server.rs:157-186 | in every reachable state, whatever follows: the requests taken are the first of the whole stream, at most one is unanswered, answers were written in order, nothing follows a malformed request, and a client that hangs up has all its requests answered, with an error exactly when it did so inside a block |
| `Connection.TakesBlock` | rspf/src/server.rs:161-183 | at the loop head a complete block is taken and answered, or ends the loop with its error |
| `Connection.ServesStream` | rspf/src/server.rs:157-186 | a stream in any chunks is served block by block, each request with its answer, up to the first malformed block or the client's hanging up |
| `Connection.OtherExits` | rspf/src/server.rs:162-183 | shutdown and a failing read at the loop head, and a failing write, end the loop with nothing more than part of an answer written |
| `Connection.ClosedStays` | rspf/src/server.rs:164-184 | a closed connection reads and writes nothing |
| `Template.ValidatePlaceholders` | rspf/src/config/load.rs:85-102 | accepted exactly when every closed `{` starts a known placeholder; otherwise the first offending text is reported |
| `Rendering.ReplaceFills` | rspf/src/engine.rs:153-158 | one global replace fills exactly the holes of its placeholder |
| `Rendering.ReplacesFillAll` | rspf/src/engine.rs:148-159 | successive replaces fill all holes when each value is inert to the placeholders replaced after it |
| `Rendering.RenderIsSimultaneous` | rspf/src/engine.rs:148-159 | on accepted templates the five replaces are the one-pass substitution, unclosed tail included, for every recipient and for sender and helo that stay apart from later placeholders |
| `Rendering.OrderIrrelevant` | rspf/src/engine.rs:153-158 | with `{`-free values any order of the replaces gives the same message |
| `Rendering.PlaceholdersByName` | rspf/src/engine.rs:153-158 | each placeholder, written out, is shown as the value that goes by its name |
| `Rendering.FaithfulExactly` | rspf/src/engine.rs:148-159 | at every client address and result word, a sender and helo are rendered as themselves in every accepted template, for any recipient, if and only if no placeholder replaced later can start in them (or helo is `{helo}` itself) |
| `Rendering.SenderShownAsHelo` | rspf/src/engine.rs:154-155 | the sender `{helo}` is shown as the helo name where the template asks for the sender |
| `Validation.Validate` | rspf/src/config/load.rs:51-82 | succeeds exactly on valid configurations, otherwise gives the first failing check, of the override records any |
| `Validation.ValidateTemplates` | rspf/src/config/load.rs:70-79 | the loop over the templates |
| `Validation.TemplateByName` | rspf/src/engine.rs:133-146 | the template of a result other than a pass is the one configured under the result's own word |
| `Validation.ValidatedMessage` | rspf/src/engine.rs:148-159 | under a validated configuration every rendered message is the one-pass substitution of result word, sender, helo, address and recipient in its template |
| `Base64.FirstFour` | rspf/src/srs.rs:97-98 | the first four characters are free of `=` and `@` and tell exactly the first three bytes |
| `Base64.GroupValue` | rspf/src/srs.rs:97-98 | the four characters of three bytes are their 24 bits in the alphabet of RFC 4648, most significant first |
| `Srs.ParsesExactly` | rspf/src/srs.rs:59-71 | parsing finds fields exactly when the address has the SRS0 form with them |
| `Srs.VerifiedExactly` | rspf/src/srs.rs:73-99 | an address is verified if and only if its hash is the first four characters of the encoded MAC of `timestamp=domain=local` under some configured secret |
| `Srs.HashIs24Bits` | rspf/src/srs.rs:93-99 | two hashes agree exactly when the first 24 bits of the MACs do |
| `Srs.MacInputUnambiguous` | rspf/src/srs.rs:88-95 | the authenticated text is the payload after its first `=`, and its bytes fix timestamp, domain and local part |
| `Srs.OriginalSplits` | rspf/src/srs.rs:88-90 | the unwrapped address splits at its last `@` into exactly that local part and domain |
| `Srs.DecodeTimestamp` | rspf/src/srs.rs:101-114 | the digit loop computes the stamp's value, below 1024 |
| `Srs.TimestampByChars` | rspf/src/srs.rs:38-114 | a stamp is read as the number its characters write in base 32, `0`-`9` then `A`-`V` in either letter case, and not at all otherwise |
| `Srs.TimestampExact` | rspf/src/srs.rs:101-114 | a stamp reads as a day modulo 1024 exactly when it is that day's stamp in some letter case |
| `Srs.AgeIsDifference` | rspf/src/srs.rs:118-121 | the age is the difference of the days modulo 1024 |
| `Srs.ExactAnswer` | rspf/src/srs.rs:54-91 | for every address and each of the four answers: given if and only if form, MAC, stamp and age are as that answer says, each stated on the characters of the address |
| `Srs.RewriteUnwraps` | rspf/src/srs.rs:54-91 | an address written with a configured secret on any day is accepted exactly when its age modulo 1024 is within the limit |
| `Srs.UnwrapOneLine` | rspf/src/srs.rs:88-90 | unwrapping adds no newline |
| `Whitelist.SuffixIsLabels` | rspf/src/whitelist/mod.rs:172-175 | a suffix rule matches exactly the names whose last labels are the rule's |
| `Whitelist.InNetExactly` | rspf/src/net/cidr_set.rs:17-19 | a network contains the range of addresses of its family from its first one on |
| `Whitelist.TrimExact` | rspf/src/whitelist/mod.rs:81-104 | trimming takes off all surrounding space and nothing else |
| `Whitelist.IsSpaceExactly` | rspf/src/whitelist/mod.rs:81-104 | space is exactly the 25 code points with the White_Space property |
| `Whitelist.SkippedExactly` | rspf/src/whitelist/mod.rs:81-86 | exactly the lines of nothing but space, or with `#` as their first other character, are skipped |
| `Whitelist.ParseEntryExactly` | rspf/src/whitelist/mod.rs:92-137 | a line is read as an entry if and only if it is written as that kind of entry, up to space and letter case |
| `Whitelist.ParseErrorsExactly` | rspf/src/whitelist/mod.rs:92-137 | an `ip:` value that is no network is one error, a line written as no kind of entry the other, and nothing else is an error |
| `Whitelist.Loading.ApplyFileLine` | rspf/src/whitelist/mod.rs:92-137 | one line adds its entry, or is an error and changes nothing |
| `Whitelist.Loading.LoadFile` | rspf/src/whitelist/mod.rs:76-90 | a file adds the entries of its lines; the first invalid line is the error, with its number |
| `Whitelist.Load` | rspf/src/whitelist/mod.rs:53-74 | succeeds exactly when every file is readable and valid, then holds exactly the listed entries; otherwise names the first bad file |
| `Whitelist.LoadedLower` | rspf/src/whitelist/mod.rs:54-67 | a loaded whitelist is in lower case |
| `Whitelist.MatchesStrongest` | rspf/src/whitelist/mod.rs:141-168 | matching gives the strongest reason for which some entry exempts |
| `Whitelist.OrderIndependent` | rspf/src/whitelist/mod.rs:141-168 | the same entries in any order and number give the same answers |
| `Whitelist.PermutedLines` | rspf/src/whitelist/mod.rs:69-90 | permuting lines within and across readable files keeps them loadable and changes no answer |
| `Whitelist.MoreEntries` | rspf/src/whitelist/mod.rs:141-168 | adding entries never loses a match and only strengthens its reason |
| `Override.LookupIsOverlay` | rspf/src/spf/override_resolver.rs:29-56 | with lowercased keys the decorator is the resolver with an overlaid TXT table |
| `Override.OverlayExactly` | rspf/src/spf/override_resolver.rs:45-51 | for every inner resolver this holds exactly when the keys are closed under lowercasing |
| `Override.DecorateAlikeExactly` | rspf/src/spf/override_resolver.rs:45-51 | two tables decorate every resolver alike if and only if they have the same records under lowercased names |
| `Override.EvaluationSeesOverlay` | rspf/src/spf/override_resolver.rs:12-15 | with keys closed under lowercasing any adaptive evaluation gives the same answers and result through the decorator as on the overlaid table |
| `Header.ReadBack` | rspf/src/spf/header.rs:14-40 | the range of one reader, that goes from the end: it gets back result, comment and values if and only if no value holds the punctuation that ends it, whatever is quoted in the comment |
| `Header.BuiltReadBack` | rspf/src/spf/header.rs:14-40 | the same for the header built for a check: that reader gets back exactly quote-free envelope sender and receiver, `;`-free helo and `=`-free address |
| `Header.SameHeader` | rspf/src/spf/header.rs:14-40 | for one request, two outcomes give the same header exactly when they agree in result word, identity and comment |
| `Header.EqualHeaders` | rspf/src/spf/header.rs:14-66 | headers are equal if and only if they agree in result word, comment, address, envelope sender, helo, receiver and identity, for every helo, given cause texts that cannot go on as a header, and quote-free address, sender and receiver |
| `Header.ReceiverExactly` | rspf/src/spf/header.rs:27-50 | which receiver is named: `UNKNOWN` where hidden, else the configured name, else the recipient's domain |
| `Header.NoPolicyRead` | rspf/src/spf/header.rs:63 | without a cause the comment tells sender and address, in these places |
| `Header.QuotedCauseAmbiguous` | rspf/src/spf/header.rs:33-39 | it is quotes in the cause text that would make a second reading possible: one header then is that of two addresses, senders and helos |
| `Header.HeaderOneLine` | rspf/src/spf/header.rs:14-63 | one-line texts give a one-line header |
| `Engine.NotPassRejects` | rspf/src/engine.rs:91-129 | exactly when spf_not_pass rejects anything but Pass |
| `Engine.WorstOfBoth` | rspf/src/engine.rs:34-79 | the answer has the worse severity, is worded from MAIL FROM unless HELO is strictly worse, and never from a pass |
| `Engine.DecisionExactly` | rspf/src/engine.rs:34-131 | the answer rejects if and only if some identity's result reaches its policy's threshold, or is a permerror with the toggle on, and else defers if and only if one is a temperror with the toggle on |
| `Configuration.ResultWords` | rspf/src/engine.rs:154 | exactly the seven result words are used |
| `Engine.MildAnswerReports` | rspf/src/engine.rs:64-77 | an answer without an opinion carries a header exactly when one is configured, and the header read back says what MAIL FROM came to |
| `Engine.StricterIsHarsher` | rspf/src/engine.rs:40-131 | a stricter policy or toggle, or a worse outcome, never gives a milder answer |
| `Engine.HeloMatters` | rspf/src/engine.rs:40-131 | HELO cannot change the answer if and only if the highest severity its policy can give is not above that of MAIL FROM; under no_check it never can |
| `Engine.ConsultsExactly` | rspf/src/engine.rs:34-131 | the answers depend on the SPF outcomes if and only if a header is written or some result is rejected or deferred on |
| `Engine.NoCheckMailFrom` | rspf/src/engine.rs:64-77 | under no_check two MAIL FROM outcomes give the same answer exactly when HELO has an opinion, no header is configured, or they agree in result word, identity and comment; the severity is always the same |
| `Engine.NoCheckNeverShows` | rspf/src/config/policy.rs:18-20 | the promise that a no_check outcome never affects the action holds if and only if HELO has an opinion or no header is configured |
| `Engine.OneLineExactly` | rspf/src/engine.rs:59-78 | every answer to one-line requests and causes is one line if and only if the templates that some policy selects are, and `authserv_id` where it is printed |
| `Framed.OneBlockExactly` | rspf/src/engine.rs:59-78 | under a validated configuration every answer to `{`-free one-line requests is one block if and only if no selected template has an empty line with the shortest values, nor the printed `authserv_id` one inside |
| `Engine.TwoAnswersForOne` | rspf/src/config/load.rs:70-79 | a template that validation accepts, under which one rejection is written as two answers |
| `Server.ChecksExactly` | rspf/src/server.rs:93-133 | exempt or incomplete requests are answered dunno without evaluation; all others take exactly two and are decided by them, MAIL FROM of the original of a trusted SRS address and of any other sender unchanged |
| `Server.CheckedSenderExactly` | rspf/src/server.rs:109-125 | the sender checked is the original address if and only if SRS is enabled and form, hash and age of the address are as required, and otherwise the sender as received |
| `Server.DomainExactly` | rspf/src/server.rs:72 | the whitelist is asked about what stands behind the last `@`, if there is one |
| `Server.RewrittenSender` | rspf/src/server.rs:104-125 | a verified SRS sender is evaluated as the original address, while the whitelist was asked about the rewritten one's domain |
| `Server.AnswerOneLine` | rspf/src/server.rs:93-155 | every answer is one line |
| `Server.EndToEndFraming` | rspf/src/server.rs:157-186 | for every byte stream and run, all that is sent is read in one way only: a block per answered request, in order, then what was written of an answer whose write failed |
| `Reload.AppState.Interleave` | rspfd/src/main.rs:88-109 | the reloader's and the requests' atomic steps on the shared cells |
| `Reload.EveryInterleaving` | rspfd/src/main.rs:94-98 | the configuration is never newer than the whitelist and at most one generation older; so for the reads of one request |
| `Reload.CellsCountLoads` | rspfd/src/main.rs:88-109 | both cells count exactly the successful loads that were stored; failed loads store nothing |
| `Reload.OwnSteps` | rspf/src/server.rs:58-109 | a request is touched by its own steps only, moves no cell, and is gone when answered |
| `Reload.ExactlyPossible` | rspf/src/server.rs:58-109 | a triple of generations is read by some request in some interleaving if and only if the bounds allow it |
| `Reload.ReadsHappened` | rspf/src/server.rs:58-109 | whatever a request has read was in the cells at three successive points of the interleaving |
| `Reload.AgreeExactly` | rspf/src/server.rs:58-109 | its three reads are of one generation if and only if the configuration cell is the same at both configuration reads and the reloader is not between its stores at the whitelist read |
| `Server.UndisturbedAnswer` | rspf/src/server.rs:33-133 | such a request is answered by that generation's configuration and whitelist, and by the evaluator of the start-up configuration |
| `Server.ReloadIsRestartExactly` | rspf/src/server.rs:33-43 | over all requests, DNS contents and evaluations, that is the answer of a daemon restarted with the same generation if and only if its limits and effective override records are those of the start, or no outcome is consulted, or all requests are exempt |
| `Server.StaleOverride` | rspf/src/server.rs:33-43 | an override that a reload adds has no effect: mail is rejected that a restarted daemon would let through |

## Left out

- SPF mechanism evaluation and DNS: library code; strategies and answers are arbitrary.
- HMAC-SHA1 internals, and any claim about other SRS implementations.
- Network containment is modelled by address prefixes; parsing of networks and addresses is a parameter.
- TOML decoding, listen address parsing, file reading, the clock, signals, sockets and accept loops; whitelist files arrive as lines.
- A connection task dropped by the runtime's exit in the middle of an answer.
- Logging and the syslog mirror.
- The command line.
