# Verified model of the voice-device demo's JSON, timer, token, MQTT and string code

The demo pushes audio into a voice room, talks JSON-RPC over MQTT and signs its own room tokens. This project models
the parts of it that compute: what they read and write byte by byte, what their loops do, and what their threads may
do to each other. To verify: `dafny verify dfyconfig.toml`.

Bytes are integers from 0 to 255 and a `std::string` is a sequence of them. Shifts and masks of the sources are
written as division and remainder. Exceptions and error texts become `None`, `Failed` or a failure flag. Clocks, salts
and the MAC function are inputs.

## Modules

| file | what is in it |
|---|---|
| Bytes, Decimal, Floors, Utf8 | byte strings and their order; `%d` and its inverse; floors of quotients; UTF-8 and surrogate pairs |
| JsonValue | JSON values (module JsonValue) and the comparison operators (module JsonOrder) |
| JsonGrammar | the grammar of sections 2 to 7 of RFC 8259 as concrete syntax trees: the text a tree spells, which trees are well formed, the value a tree denotes |
| JsonReader | recursive descent as a function from bytes to trees |
| JsonRecognition | the reader is exactly the grammar |
| JsonParser | the byte-cursor parser class, proved against the reader |
| JsonPrinter | the printer, and its inversion by the parser |
| JsonReference | the same texts spelled a second time in characters: escapes by code point, an independent printer, numbers as decimal fractions, comments, the nesting limit |
| Timers | the deadline queue |
| ThreadLoop | the loop threads against `destory`, as a step system |
| FramePump | the audio frame pump |
| Wire, Packer | the stream format of integers, strings, vectors, maps and records; the packer and unpacker classes |
| Base64 | the base64 codec |
| AccessToken | token framing, signature, parsing, verification |
| Mqtt | request and answer correlation, as a step system |
| Split | `splitString` and `join` |

## Main results

- `Json::parse` accepts exactly the texts of the grammar with nesting of at most 200, returns the value of the one tree
  that spells the text, and the last of several equal keys wins (`JsonRecognition.Recognition`, `Unambiguous`,
  `TooDeep`, `JsonGrammar.LastDuplicateWins`). The cursor class with its push-back, sticky flag and deferred surrogate
  computes just that (`JsonParser.Parse`). What the tree denotes is fixed from outside the grammar: any string of code
  points written in `\u` escapes, in either case and with surrogate pairs, parses to its UTF-8, every number to the
  fraction its digits spell, and the printer writes the same text as an independent one (`JsonReference.EscapesAreRead`,
  `NumberIsRead`, `DumpIsPrinted`).
- Parsing what was printed gives an equal value back exactly when the nesting is at most 200 and all doubles are finite
  (`JsonPrinter.RoundTrip`), and the very value, constructors included, exactly when moreover every int has at most nine
  characters and every double has more (`IdenticalRoundTrip`). The same holds for streams of values
  (`StreamRoundTrip`).
- `==` and `<` are a total order on NaN-free values (`JsonOrder.TotalOrder`). Which equal values share a pointer never
  shows in `<`; it can show in `==` exactly on pairs that compare equal with everything shared and unequal with nothing
  shared (`SharingUnobservable`, `SharingObservableExactly`), and so, for a value against itself, exactly when a NaN is
  inside (`SharingObservableIffNaN`). The order itself is null, numbers, booleans, strings, arrays, objects, then by
  value, then by the first difference (`KindsExactly`, `ScalarsExactly`, `ArraysExactly`, `ObjectsExactly`).
- After any delay every timer has fired on its own multiples of the interval, none lost, none twice, and all callbacks
  of the manager's life have run in deadline order, exactly when the `int` products of the re-arming fit
  (`Timers.TimerManager.TakeAllTimeout`, `CaughtUp`).
- In every interleaving, once `cancel_loop` has returned no callback runs again, so no frame reaches a destroyed engine
  (`ThreadLoop.CancelIsFinal`). Callbacks do run: from every reachable state with the flag up a worker in the loop gets
  to run any number of due timers, each pushing a frame into a live engine, and comes back to the flag (`DueTimerFires`,
  `PassRuns`); with the flag down it leaves (`FlagDownLeaves`). From every reachable state in which nobody is in
  `destory` a call of it completes and leaves the engine destroyed (`ShutdownCompletes`), callbacks never overlap, and
  the engine is destroyed at most once (`LogIsExact`).
- The audio pump pushes exactly the ticks its trace names, and all its slices lie inside the data exactly for files that
  are empty, and so refused, or hold a whole frame (`FramePump.Play`, `InsideExactly`).
- A token that is serialized parses back, field by field, exactly when the application id has 24 bytes, and verifies
  exactly while it has not expired and the key signs alike (`AccessToken.RoundTrip`, `VerifyParsed`). Its text is
  spelled byte by byte (`TokenIsSpelled`), its signature is the MAC of the packed message, and a token changed under an
  old signature is accepted exactly when the two messages have the same MAC (`SignatureIsMac`, `VerifyIsMac`,
  `ChangedToken`). The base64 in it is the one of section 4 of RFC 4648 (`Base64.Encode`). `Serialize`
  succeeds exactly for messages of at most 4092 bytes and throws exactly for sizes given by `Throws`; for all other
  messages it copies past the end of a buffer or wraps its 16-bit cursor (`SerializeExactly`, `SerializeStaysInside`).
- The peer reads from a published request its id, version, method and parameters, exactly when the parameters are less
  than 200 deep (`Mqtt.RequestIsRead`). `sendRequest` never returns another request's answer, in any run, exactly when
  at most one thread calls it (`Mqtt.OneCallerExactly`); with any number of threads a call's answer is its own exactly
  when the latest registration before its return has its id (`OwnAnswerExactly`). With one thread the answer has
  arrived after the call registered, in every run, exactly when no message with the call's id was in flight at that
  moment (`AnswersArriveLaterExactly`).

Three things that the code does and its documentation does not say: an integer of more than nine characters, counting
the sign, comes back from the parser as a double (`JsonPrinter.LongIntComesBackDouble`); `check_size` grows the buffer
once per push, so a single string of more than 4092 bytes is copied past the end of a fresh packer instead of raising
the overflow error (`Packer.StringFits`); an audio file shorter than one frame is still played, with a slice that
reaches past the data (`FramePump.FirstTickPushes`, `InsideExactly`).

## Model

| member | source | states |
|---|---|---|
| JsonValue.InsertIsAssignment | src/util/json11/json11.cpp:688 | `data[key] = value` on a `std::map`: the key order is kept, the key is bound to the new value and every other lookup is unchanged |
| JsonOrder.SelfComparison | src/util/json11/json11.cpp:149-189 | a NaN-free value equals itself and is not less than itself, by structure alone |
| JsonOrder.SharingUnobservable | src/util/json11/json11.cpp:302-318 | which equal values share a pointer never shows in `<`, and not in `==` either as long as one side is free of NaN |
| JsonOrder.SharingObservableIffNaN | src/util/json11/json11.cpp:302-318 | comparing a value with itself, the pointer shortcut can change the answer exactly when a NaN is inside it |
| JsonOrder.SharingObservableExactly | src/util/json11/json11.cpp:302-318 | on any two values the pointer shortcut can change `==` if and only if they are equal with everything shared and not with nothing shared |
| JsonOrder.Trichotomy | src/util/json11/json11.cpp:149-189 | of `a < b`, `a == b`, `b < a` exactly one holds, across int and double, arrays and objects |
| JsonOrder.Transitive | src/util/json11/json11.cpp:149-189 | the comparison is transitive |
| JsonOrder.TotalOrder | src/util/json11/json11.cpp:302-318 | `==` and `<`, pointer shortcut included, are a total order on NaN-free values |
| JsonOrder.KindsExactly | src/util/json11/json11.hpp:81-84 | values of different types compare as null, numbers, booleans, strings, arrays, objects |
| JsonOrder.ScalarsExactly | src/util/json11/json11.cpp:161-189 | ints and doubles compare by value with each other, false is below true, strings compare bytewise, for `<` and for `==` |
| JsonOrder.NaNIsUnordered | src/util/json11/json11.cpp:172-187 | NaN is neither equal to, less than, nor greater than any number |
| JsonOrder.ArraysExactly | src/util/json11/json11.cpp:161-167 | arrays are equal item by item, and less at the first item that differs or by being a proper prefix |
| JsonOrder.ObjectsExactly | src/util/json11/json11.cpp:161-167 | objects likewise, member by member, the key before the value |
| Utf8.DecodeEncode | src/util/json11/json11.cpp:455-474 | an independent decoder reads back every encoded code point, whatever follows |
| Utf8.EncodeDecode | src/util/json11/json11.cpp:455-474 | and it reads nothing but encodings, so every code point has one encoding, the shortest |
| Utf8.PairBijective | src/util/json11/json11.cpp:532-538 | surrogate pairs and the code points from 0x10000 to 0x10FFFF correspond one to one |
| Decimal.NumberOfDigits | src/util/json11/json11.cpp:67-71 | the digits `%d` prints denote the number |
| JsonGrammar.LastDuplicateWins | src/util/json11/json11.cpp:676-699 | looking up a key in a parsed object finds the value of the last member of that name |
| JsonRecognition.GapSound | src/util/json11/json11.cpp:377-435 | what is skipped is whitespace, and in COMMENTS mode comments; the skip goes as far as it can |
| JsonRecognition.NumberSound | src/util/json11/json11.cpp:573-622 | an accepted number is a number of section 6 of RFC 8259, unchanged |
| JsonRecognition.NumberComplete | src/util/json11/json11.cpp:573-622 | every number of the grammar is accepted whole, whatever ends it |
| JsonRecognition.ItemsSound | src/util/json11/json11.cpp:480-567 | an accepted string body is one of section 7 of RFC 8259, over bytes |
| JsonRecognition.ItemsComplete | src/util/json11/json11.cpp:480-567 | every string body of the grammar is accepted up to its quote |
| JsonRecognition.ValueSound | src/util/json11/json11.cpp:644-728 | an accepted value is spelled by the tree read and stays within the depth limit |
| JsonRecognition.ValueComplete | src/util/json11/json11.cpp:644-728 | every tree within the depth limit is read back from its text |
| JsonRecognition.Derivation | src/util/json11/json11.cpp:732-744 | a text is derived by a tree of height at most 200 if and only if parsing builds that tree |
| JsonRecognition.Recognition | src/util/json11/json11.cpp:732-744 | `Json::parse` returns `v` if and only if some tree of the grammar spells the text and denotes `v` |
| JsonRecognition.Unambiguous | src/util/json11/json11.cpp:732-744 | a text has at most one tree, of any height |
| JsonRecognition.TooDeep | src/util/json11/json11.cpp:645-647 | a text whose tree is higher than 200 is refused |
| JsonRecognition.CommentsExtendStandard | src/util/json11/json11.cpp:386-435 | what STANDARD mode accepts COMMENTS mode accepts with the same value |
| JsonParser.JsonParser.ConsumeWhitespace | src/util/json11/json11.cpp:377-380 | only blanks are passed, and the gap read from here on is the same |
| JsonParser.JsonParser.SkipLine | src/util/json11/json11.cpp:394-397 | stops at the line end or the end of the text |
| JsonParser.JsonParser.SkipBlock | src/util/json11/json11.cpp:400-413 | stops behind the first comment close, or fails |
| JsonParser.JsonParser.ConsumeComment | src/util/json11/json11.cpp:386-418 | drops one comment, or fails where it is malformed, or moves nothing |
| JsonParser.JsonParser.ConsumeGarbage | src/util/json11/json11.cpp:424-435 | fails or passes exactly the gap of the grammar; the failure flag is never lowered |
| JsonParser.JsonParser.GetNextToken | src/util/json11/json11.cpp:442-449 | the first byte behind the gap, one past it the cursor; NUL and failure at the end of the text |
| JsonParser.JsonParser.EncodeUtf8 | src/util/json11/json11.cpp:455-474 | appends the UTF-8 encoding; nothing for a negative code point |
| JsonParser.JsonParser.ParseString | src/util/json11/json11.cpp:480-567 | the one-pass loop with a pending unit returns the two-pass meaning: all bytes and 16-bit units first, then greedy pairing and encoding; fails exactly where the grammar does |
| JsonParser.JsonParser.ParseWhole | src/util/json11/json11.cpp:579-590 | the integer part: no leading zero |
| JsonParser.JsonParser.ParseFraction | src/util/json11/json11.cpp:597-605 | the fraction, or nothing without a point |
| JsonParser.JsonParser.ParseExponent | src/util/json11/json11.cpp:607-619 | the exponent, or nothing without its letter |
| JsonParser.JsonParser.ParseNumber | src/util/json11/json11.cpp:573-622 | fails where the number grammar does, else the number's value, an int up to nine characters and a double beyond |
| JsonParser.JsonParser.Expect | src/util/json11/json11.cpp:629-638 | succeeds exactly when the text continues with the word |
| JsonParser.JsonParser.ParseJson | src/util/json11/json11.cpp:644-728 | terminates with the cursor inside the text, keeps the failure sticky, and returns the value the reader finds or fails where it fails, with the empty string for a broken string and null otherwise |
| JsonParser.JsonParser.ParseScalar | src/util/json11/json11.cpp:653-668 | the branches for numbers, words and strings, with the push-back |
| JsonParser.JsonParser.ParseArray | src/util/json11/json11.cpp:703-725 | the array loop, push-back after a failed token included, returns the elements of the grammar's array |
| JsonParser.JsonParser.ParseItem | src/util/json11/json11.cpp:688-696 | a nested value and the comma or close behind it |
| JsonParser.JsonParser.ParseName | src/util/json11/json11.cpp:680-686 | a member's name and its colon |
| JsonParser.JsonParser.ParseObject | src/util/json11/json11.cpp:670-701 | the object loop returns the map of the grammar's members |
| JsonParser.Parse | src/util/json11/json11.cpp:732-744 | the parser class, trailing text included, fails or returns exactly as the reader does, whose meaning is `Recognition` |
| JsonParser.ParseMulti | src/util/json11/json11.cpp:747-766 | returns the complete values, and when it fails one more, which is told too; the stop position lies behind the last complete value |
| JsonPrinter.DumpInt | src/util/json11/json11.cpp:67-71 | the text of the number's tree |
| JsonPrinter.DumpString | src/util/json11/json11.cpp:77-112 | the loop with its lookahead prints the escaped string |
| JsonPrinter.DumpArray | src/util/json11/json11.cpp:114-124 | the loop prints the text of the array's tree |
| JsonPrinter.DumpObject | src/util/json11/json11.cpp:126-138 | the loop prints the text of the object's tree |
| JsonPrinter.DumpValue | src/util/json11/json11.cpp:53-142 | printing appends the text of the value's tree |
| JsonPrinter.TreeSplits | src/util/json11/json11.cpp:114-142 | printing is compositional: what follows a value does not change its text |
| JsonPrinter.EscapeInverts | src/util/json11/json11.cpp:77-112 | unescaping the escaped form of any byte string gives it back |
| JsonPrinter.PrintOk | src/util/json11/json11.cpp:53-142 | what is printed is in the grammar, in both modes, and as high as the value is deep |
| JsonPrinter.PrintDenotes | src/util/json11/json11.cpp:53-142 | the printed tree denotes the value as the parser re-reads it |
| JsonPrinter.RereadEqual | src/util/json11/json11.cpp:592-594 | the re-read value equals the original under `operator==` exactly when its doubles are finite |
| JsonPrinter.RoundTrip | src/util/json11/json11.cpp:732-744 | parsing the printed text of any well-formed value succeeds exactly up to depth 200, and gives an equal value if and only if moreover its doubles are finite |
| JsonPrinter.NineCharactersExactly | src/util/json11/json11.cpp:592-594 | the integers whose text has at most nine characters, sign included, are those from -99999999 to 999999999 |
| JsonPrinter.IdenticalRoundTrip | src/util/json11/json11.cpp:592-594 | parsing the printed text gives the very same value if and only if the depth is at most 200, every int has at most nine characters, and every double is finite and has more |
| JsonPrinter.LongIntComesBackDouble | src/util/json11/json11.cpp:592-594 | the int 1234567890 comes back as a double |
| JsonPrinter.StreamRoundTrip | src/util/json11/json11.cpp:747-766 | `parse_multi` on values printed with single spaces between them succeeds exactly when none is deeper than 200, stops at the end, and gives an equal list back if and only if moreover all doubles are finite |
| JsonReference.FourDigitsAreRead | src/util/json11/json11.cpp:505-526 | four hexadecimal digits, in either case, are read as the number they denote |
| JsonReference.HexDigitsExactly | src/util/json11/json11.cpp:517-523 | the 22 hexadecimal digits and no other characters pass the check of a `\u` escape |
| JsonReference.EscapesAreRead | src/util/json11/json11.cpp:455-566 | any sequence of code points outside the surrogates, each written as its escape of section 7 of RFC 8259, parses to the concatenation of their UTF-8 |
| JsonReference.EscapeIsRead | src/util/json11/json11.cpp:505-553 | one such escape, or surrogate pair of escapes, parses to the code point's UTF-8 |
| JsonReference.LoneSurrogateIsRead | src/util/json11/json11.cpp:528-548 | a surrogate alone is encoded like any other unit |
| JsonReference.ShortEscapeIsRead | src/util/json11/json11.cpp:551-564 | each of the eight two-character escapes parses to its character |
| JsonReference.DumpIsPrinted | src/util/json11/json11.cpp:53-147 | the printer's text of any value is the text an independent printer spells in characters |
| JsonReference.NumberIsRead | src/util/json11/json11.cpp:573-622 | any number of the grammar parses to the signed decimal fraction times the power of ten that its characters spell; as an int exactly when it has no fraction or exponent and at most nine characters |
| JsonReference.BlankIsSkipped | src/util/json11/json11.cpp:377-380 | a blank, tab, newline or carriage return in front changes nothing |
| JsonReference.LineIsSkipped | src/util/json11/json11.cpp:386-399 | a line comment in front changes nothing |
| JsonReference.BlockIsSkipped | src/util/json11/json11.cpp:400-416 | a block comment in front, without a close inside, changes nothing |
| JsonReference.SlashIsRefused | src/util/json11/json11.cpp:424-435 | outside COMMENTS mode a text that starts with a slash is refused |
| JsonReference.ParsedIsWellFormed | src/util/json11/json11.cpp:643-728 | whatever text is parsed, every object in the value is a map, its keys distinct and in order |
| JsonReference.NestingLimit | src/util/json11/json11.cpp:645-647 | `[[..]]` parses if and only if there are at most 201 brackets of each kind |
| Timers.Timer.constructor | src/util/thread_loop.h:27-32 | armed for one interval after the start |
| Timers.Timer.UpdateExpire | src/util/thread_loop.h:42-45 | one interval further, counted from the start, or the overflow of the `int` product is told |
| Timers.TimerManager.AddTimer | src/util/thread_loop.h:75-82 | a new timer joins the queue; a timeout that is not positive is refused |
| Timers.TimerManager.DelTimer | src/util/thread_loop.h:84-97 | the queue without that timer, all others untouched |
| Timers.TimerManager.Top | src/util/thread_loop.h:99-134 | a queued timer with the earliest deadline |
| Timers.TimerManager.GetRecentTimeout | src/util/thread_loop.h:99-114 | sleeping that long passes no deadline and reaches one |
| Timers.TimerManager.Fire | src/util/thread_loop.h:116-134 | one pass of the loop: a one-shot leaves for good, a periodic timer is re-armed later or its product overflows, the history of every timer stays its schedule and that of the manager stays in deadline order |
| Timers.TimerManager.TakeAllTimeout | src/util/thread_loop.h:116-134 | terminates, and completes if and only if the products it has to reach fit an `int`; then every deadline lies beyond now and exactly the due one-shots are gone and fired once; callbacks have fired in deadline order over the whole life of the manager |
| Timers.TimerManager.CaughtUp | src/util/thread_loop.h:116-134 | in total a timer has fired floor((now - start) / interval) times, at the deadlines of its schedule |
| Timers.ScheduleAt | src/util/thread_loop.h:42-45 | the k-th deadline is k intervals after the start: no drift |
| ThreadLoop.RunsKeepInvariant | src/util/thread_loop.h:159-180 | every step of a loop thread or of `destory` keeps each lock with the thread that stands behind it, the flag down once cleared, and nobody inside a pass once a cancel has returned |
| ThreadLoop.CancelIsFinal | src/util/thread_loop.h:159-180 | over every run of any number of threads: after `cancel_loop` has returned no callback is running or ever starts, and the engine is neither used nor destroyed after its destruction |
| ThreadLoop.NeverStuck | src/util/thread_loop.h:177-180 | whoever is inside `destory` can move, or the loop thread that holds the mutex can |
| ThreadLoop.PassRuns | src/util/thread_loop.h:162-171 | from every reachable state with the flag up and a worker at it: one pass runs any number of due timers, each logging start, a frame pushed into a live engine, and end, and is back at the flag with nothing else changed |
| ThreadLoop.DueTimerFires | src/util/thread_loop.h:162-171 | from every reachable state with the flag up a worker anywhere in the loop gets, by its own steps, to run the callback of a due timer |
| ThreadLoop.WorkerStarts | src/util/thread_loop.h:159-162 | a thread just made gets into the loop whenever the mutex is free |
| ThreadLoop.FlagDownLeaves | src/util/thread_loop.h:162-173 | from every reachable state with the flag down a worker in the loop leaves it by its own steps and frees the mutex, finishing the callback it is in and starting none |
| ThreadLoop.CancelledDestroys | src/rtc_engine_wrapper.cc:139-166 | a caller whose cancel has returned destroys a live engine, logging it once, and leaves; with no engine it only leaves |
| ThreadLoop.ShutdownCompletes | src/rtc_engine_wrapper.cc:135-167 | from every reachable state in which nobody is in `destory`, a call of it completes: unfinished callback, return of the cancel, end of the engine if there is one, both locks free |
| ThreadLoop.FrameThenShutdown | src/rtc_engine_wrapper.cc:135-167 | a run in which a frame is pushed, the loop is cancelled, and the engine is destroyed |
| ThreadLoop.LogIsExact | src/util/thread_loop.h:159-180 | over every run: callbacks never overlap and each pushes one frame; one log entry for each cancel that has returned; the engine destroyed exactly once when it is gone, and gone before any call returns; the flag down exactly when a call has cleared it |
| FramePump.FramePump.constructor | src/rtc_engine_wrapper.cc:254-267 | whole frames of 1920 bytes, starting with the first |
| FramePump.FramePump.SetReady | src/rtc_engine_wrapper.cc:558-571 | the ready flag changes and nothing else |
| FramePump.FramePump.PushExternalAudioFrame | src/rtc_engine_wrapper.cc:388-431 | pushes one frame exactly when ready and no longer pausing, keeps the trace cyclic and its passes apart, and a pause begins when the pass is over |
| FramePump.Play | src/rtc_engine_wrapper.cc:388-431 | over every run of ticks and ready changes with a clock that does not go back, the pump pushes exactly its trace: the ticks on which it is ready and no pause is on, indices 0, 1, .., n-1 over and over, at least the configured seconds between passes; nothing for an empty file |
| FramePump.FirstTickPushes | src/rtc_engine_wrapper.cc:388-431 | the first tick after the room is ready pushes the first slice, however short the file |
| FramePump.InsideExactly | src/rtc_engine_wrapper.cc:254-267 | in every run every slice lies inside the data if and only if the file is empty or holds a whole frame |
| FramePump.SlicesInside | src/rtc_engine_wrapper.cc:411-413 | all slices lie inside the data if and only if there is at least one whole frame |
| FramePump.PassPlaysData | src/rtc_engine_wrapper.cc:411-413 | the slices of a pass concatenate to the start of the data |
| FramePump.PassOfRun | src/rtc_engine_wrapper.cc:422-430 | every full pass of a run plays the first n * 1920 bytes |
| Wire.LittleEndianInverts | src/TokenGenerator/Packer.h:62-88 | the bytes of an integer denote it |
| Wire.SignBack | src/TokenGenerator/Packer.h:151-172 | the casts to unsigned and back return every signed value |
| Wire.InsertEntryLast | src/TokenGenerator/Packer.h:402-413 | inserting a key beyond all others appends |
| Wire.DecodeEncode | src/TokenGenerator/Packer.h:275-413 | popping returns what was pushed, of any nesting of integers, strings, vectors, maps and records, and leaves exactly what came after |
| Wire.DecodeTyped | src/TokenGenerator/Packer.h:275-413 | whatever the bytes, what is popped is a value of the type, maps in key order without duplicates |
| Wire.EncodeInjective | src/TokenGenerator/Packer.h:128-218 | equal bytes, equal values |
| Packer.SizesAddUp | src/TokenGenerator/Packer.h:62-111 | the separate pushes of a value add up to its encoding |
| Packer.SmallPushesFit | src/TokenGenerator/Packer.h:117-126 | pushes of at most 3072 bytes each always find room while the cursor stays in 16 bits, through every growth |
| Packer.FirstGrowthFits | src/TokenGenerator/Packer.h:117-126 | pushes of any size find room up to 4096 bytes in all |
| Packer.StringFits | src/TokenGenerator/Packer.h:90-101 | one string finds room in a fresh packer if and only if it has at most 4092 bytes; a longer one goes past the end |
| Packer.PushesMove | src/TokenGenerator/Packer.h:62-111 | successful pushes move the cursor by exactly what they wrote |
| Packer.Packer.CheckSize | src/TokenGenerator/Packer.h:117-126 | grows by four at most once, keeps the contents, or throws and changes nothing |
| Packer.Packer.PushBytes | src/TokenGenerator/Packer.h:103-113 | appends the bytes in front of the cursor, or throws, or tells that the copy would leave the buffer or the cursor wrap |
| Packer.Packer.PushText | src/TokenGenerator/Packer.h:90-101 | appends the 16-bit length and the characters |
| Packer.Packer.Push | src/TokenGenerator/Packer.h:128-218 | appends the value's encoding, across every growth, or ends as its first push that does not fit ends: an exception, a copy past the end, a wrapped cursor |
| Packer.Packer.PushItems | src/TokenGenerator/Packer.h:180-189 | the vector loop |
| Packer.Packer.PushEntry | src/TokenGenerator/Packer.h:202-207 | a pair: key, then value |
| Packer.Packer.PushEntries | src/TokenGenerator/Packer.h:209-218 | the map loop |
| Packer.Packer.PushFields | src/TokenGenerator/Packer.h:1208-1213 | the fields of a record in order |
| Packer.Packer.Pack | src/TokenGenerator/Packer.h:35-42 | the total goes to the first two bytes and nothing else changes |
| Packer.Packer.Body | src/TokenGenerator/Packer.h:115 | after `pack`, the total followed by the body is everything written in front of the cursor |
| Packer.PackValue | src/TokenGenerator/utils.h:25-30 | packs a value in a fresh packer to exactly its encoding, or ends as its pushes end |
| Packer.Unpacker.PopUnsigned | src/TokenGenerator/Packer.h:275-305 | the next integer, or an exception when too few bytes are left |
| Packer.Unpacker.PopString | src/TokenGenerator/Packer.h:307-314 | the next string, or an exception |
| Packer.Unpacker.Pop | src/TokenGenerator/Packer.h:330-413 | decodes the next value and moves the cursor behind it, or throws where the decoder fails |
| Packer.Unpacker.PopItems | src/TokenGenerator/Packer.h:378-388 | the vector loop |
| Packer.Unpacker.PopEntries | src/TokenGenerator/Packer.h:402-412 | the map loop; an entry already there stays |
| Packer.Unpacker.PopFields | src/TokenGenerator/Packer.h:1214-1218 | the fields of a record in order |
| Packer.UnpackValue | src/TokenGenerator/utils.h:32-36 | decodes from the front of the data, its length cut to 16 bits |
| Packer.UnpackPacked | src/TokenGenerator/utils.h:25-36 | `Unpack` returns what `Pack` was given |
| Base64.EncodedHasItsLength | src/TokenGenerator/utils.h:134 | the text has exactly the length computed beforehand |
| Base64.EncodingIsUnique | src/TokenGenerator/utils.h:124-169 | a text is the encoding that section 4 of RFC 4648 asks for if and only if it is the one the encoder makes, for every byte string |
| Base64.AlphabetExactly | src/TokenGenerator/utils.h:171-173 | a character counts as base64 if and only if it is in the 64-character alphabet |
| Base64.Encode | src/TokenGenerator/utils.h:129-169 | the loop and its tail fill the buffer, never outside it, with the encoding section 4 of RFC 4648 asks for: letter positions in the alphabet as a base-64 number are the bytes as a base-256 number, group by group, with two, one or no `=` at the end |
| Base64.BytesOfLettersLength | src/TokenGenerator/utils.h:175-223 | n letters give 3n/4 bytes, rounded down |
| Base64.DecodedFits | src/TokenGenerator/utils.h:182-217 | on any input the decoder writes at most the bytes it allocates |
| Base64.MissingLetters | src/TokenGenerator/utils.h:206-217 | the index given to missing letters contributes nothing to the bytes written |
| Base64.DecodeEncode | src/TokenGenerator/utils.h:129-223 | decoding inverts encoding on every byte string |
| Base64.StrayIsIgnored | src/TokenGenerator/utils.h:184-189 | deleting a character outside the alphabet in front of any `=` does not change the result |
| Base64.PaddingEnds | src/TokenGenerator/utils.h:184 | nothing from the first `=` on matters |
| Base64.Decode | src/TokenGenerator/utils.h:175-223 | the loop and its tail return the decoding, never writing outside the buffer, on any input |
| AccessToken.ListedIsWhole | src/TokenGenerator/Packer.h:209-218 | walking a map in key order lists every binding once |
| AccessToken.MsgOfValue | src/TokenGenerator/AccessToken.h:29-31 | the six fields of a message and their packable form correspond |
| AccessToken.MsgLength | src/TokenGenerator/AccessToken.h:64-73 | a packed message has 18 bytes, its strings, and 6 for each privilege |
| AccessToken.ThrowsExactly | src/TokenGenerator/Packer.h:117-126 | packing a message throws if and only if its two string lengths and its number of privileges satisfy an arithmetic condition |
| AccessToken.SerializeExactly | src/TokenGenerator/AccessToken.h:75-87 | `Serialize` succeeds if and only if the packed message has at most 4092 bytes, and throws if and only if packing the message does |
| AccessToken.SerializeStaysInside | src/TokenGenerator/AccessToken.h:75-87 | no copy leaves a buffer and no cursor wraps if and only if the message has at most 4092 bytes or throws |
| AccessToken.SameBytesSameMessage | src/TokenGenerator/AccessToken.h:64-73 | equal packed messages have equal fields |
| AccessToken.RoundTrip | src/TokenGenerator/AccessToken.h:112-146 | for every message that fits, parsing the serialized token restores every field but the key, and the signature, if and only if the application id has 24 bytes |
| AccessToken.VerifyParsed | src/TokenGenerator/AccessToken.h:89-97 | a parsed token is accepted if and only if it has not expired and the key makes the same signature |
| AccessToken.SignatureIsMac | src/TokenGenerator/AccessToken.h:75-87 | the signature that is parsed back from a serialized token is the MAC of its packed message under the key, and empty for an empty key |
| AccessToken.VerifyIsMac | src/TokenGenerator/AccessToken.h:89-97 | `Verify` answers true if and only if the token has not expired and its signature is the MAC of its packed message under the given key, or empty for an empty key |
| AccessToken.ChangedToken | src/TokenGenerator/AccessToken.h:89-97 | a token whose fields were changed under an old signature is accepted if and only if the MACs of the two packed messages agree; the packed messages are the same only if the fields are |
| AccessToken.MsgBytes | src/TokenGenerator/AccessToken.h:29-31 | a packed message byte for byte: three 32-bit words, two strings behind their 16-bit lengths, the number of privileges and each of them in key order |
| AccessToken.TokenIsSpelled | src/TokenGenerator/AccessToken.h:75-87 | the token's text: `001`, the application id, and in base64 the message and the MAC, each behind its 16-bit length |
| AccessToken.ShortTokenIsParsed | src/TokenGenerator/AccessToken.h:112-121 | from a token that ends inside the application id, what there is of the id is read and nothing else |
| AccessToken.AccessToken.constructor | src/TokenGenerator/AccessToken.h:36-45 | the four names, the clock and the salt |
| AccessToken.AccessToken.AddPrivilege | src/TokenGenerator/AccessToken.h:48-56 | the privilege gets its expiry, publishing grants audio, video and data as well, all others stay |
| AccessToken.AccessToken.ExpireTime | src/TokenGenerator/AccessToken.h:60-62 | sets the expiry alone |
| AccessToken.AccessToken.PackMsg | src/TokenGenerator/AccessToken.h:64-73 | the packed message of the present fields |
| AccessToken.AccessToken.Serialize | src/TokenGenerator/AccessToken.h:75-87 | the token text, or how packing ended; the MAC of the packed message, or nothing for an empty key, is stored in the object once the message is packed |
| AccessToken.AccessToken.Verify | src/TokenGenerator/AccessToken.h:89-97 | the verdict; an expired token keeps its key, any other takes the given one |
| AccessToken.Parse | src/TokenGenerator/AccessToken.h:112-146 | a new token with as much filled in as was read before an exception |
| Mqtt.RequestIdsDiffer | src/mqtt_client.cpp:273-277 | different counter values give different, non-empty ids |
| Mqtt.RequestCarriesId | src/mqtt_client.cpp:229-237 | the published text parses to an object with the request's id if and only if the parameters are less than 200 deep |
| Mqtt.RequestIsRead | src/mqtt_client.cpp:229-237 | the published text parses if and only if the parameters are less than 200 deep, and then to an object with exactly the keys `id`, `jsonrpc`, `method` and `params`, bound to the id, "2.0", the method name, and a value equal to the parameters if and only if their doubles are finite |
| Mqtt.AnswerIsReturned | src/mqtt_client.cpp:191-262 | from every state in which a thread is free: a call whose answer arrives registers, publishes, and returns it, and nothing stays pending |
| Mqtt.CallTimesOut | src/mqtt_client.cpp:239-262 | from every such state: a call without an answer times out, returns false, and nothing stays pending |
| Mqtt.LateAnswerIsHanded | src/mqtt_client.cpp:198-219 | with nothing pending whatever arrives is handed to the callback and changes nothing else |
| Mqtt.RunsKeepInvariant | src/mqtt_client.cpp:191-262 | every step of a caller or the callback keeps what ties pending id, response and flag to the last registration |
| Mqtt.AnswersTheLatest | src/mqtt_client.cpp:191-262 | any number of callers, any deliveries: a returned payload was stored since the last registration and carries its id |
| Mqtt.EveryMessageSettled | src/mqtt_client.cpp:191-219 | exactly the answers to the outstanding request are stored, every other message is handed to the callback, none is lost or duplicated, and no call gives up on an answer already stored |
| Mqtt.CallsAreClosed | src/mqtt_client.cpp:221-262 | over every run the calls that have registered and not returned are exactly as many as threads are inside `sendRequest` |
| Mqtt.OwnAnswerExactly | src/mqtt_client.cpp:221-262 | any number of callers: a returned payload is the answer to the call's own request if and only if the latest registration before the return has the call's id |
| Mqtt.AnswersItsOwn | src/mqtt_client.cpp:221-262 | with one caller, `sendRequest` that returns true returns a payload whose id is that call's, stored after the call registered |
| Mqtt.AnswersArriveLaterExactly | src/mqtt_client.cpp:191-262 | with one caller: in every run after a call registers, the payload it returns has arrived since, if and only if no message with its id was parsed but not yet compared at that moment |
| Mqtt.EarlyMessage | src/mqtt_client.cpp:198-212 | a run in which a message that arrives before its request is registered is returned as the answer |
| Mqtt.AnsweredOnce | src/mqtt_client.cpp:221-262 | with distinct ids one payload answers at most one call |
| Mqtt.TwoCallersMix | src/mqtt_client.cpp:239-262 | for any number of callers from two on, a run in which the first returns the second's answer |
| Mqtt.OneCallerExactly | src/mqtt_client.cpp:221-262 | in every run every returned payload answers its own call if and only if there is at most one caller |
| Split.CutIsFirst | src/util/util.h:36-45 | the cut chosen is at a carry or the end, and no carry stands in front of it |
| Split.ChooseCut | src/util/util.h:36-45 | the inner loop over the carries finds that cut; the first carry wins at the same place |
| Split.NonEmptyEnds | src/util/util.h:35-51 | the loop ends when no carry is empty |
| Split.EmptyCarryEnds | src/util/util.h:35-51 | with an empty carry it ends if and only if the carries in front of that one tile the string |
| Split.SplitString | src/util/util.h:30-53 | whenever the loop ends it returns the parts between the cuts |
| Split.PartsAreClean | src/util/util.h:30-53 | no part is empty or contains a carry |
| Split.PartsRebuild | src/util/util.h:30-53 | the parts are the filled stretches of a division of the whole string at carries: nothing else is dropped |
| Split.PartsAreRuns | src/util/util.h:30-53 | for single-character carries the parts are the maximal separator-free runs, in order |
| Split.Join | src/util/util.h:68-80 | the parts with the connector between them |
| Split.SplitInvertsJoin | src/util/util.h:30-85 | splitting what was joined with one character gives the parts back if and only if none is empty or contains it |

## Left out

- JsonParser.JsonParser.ParseNumber: `strtod` is modelled as the exact real number; rounding, underflow, overflow to infinity and negative zero are not.
- JsonParser.JsonParser.EncodeUtf8: code points beyond 0x10FFFF, which `parse_string` never passes.
- JsonPrinter.DumpValue: doubles are whole numbers up to 2^53 in magnitude, or not finite; the digits of `%.17g` for other doubles are not modelled (`JsonReference.PrintableExactly` says what is).
- JsonPrinter.DumpArray: as `DumpValue`, for the doubles inside.
- JsonPrinter.DumpObject: as `DumpValue`, for the doubles inside.
- JsonPrinter.PrintOk: as `DumpValue`, for the doubles inside.
- JsonPrinter.PrintDenotes: as `DumpValue`, for the doubles inside.
- JsonPrinter.RereadEqual: as `DumpValue`, for the doubles inside.
- JsonPrinter.RoundTrip: ranges over those values, which include every value built from null, booleans, ints, strings, arrays and objects.
- JsonPrinter.IdenticalRoundTrip: ranges over the same values.
- JsonPrinter.StreamRoundTrip: ranges over lists of the same values.
- Mqtt.RequestCarriesId: the parameters are such values.
- Mqtt.RequestIsRead: the parameters are such values.
- JsonReference.DumpIsPrinted: as `DumpValue`, for the doubles inside.
- JsonReference.NumberIsRead: as `ParseNumber`.
- Packer.Packer.Push: where the sources copy past the end of the buffer, or go on with a 16-bit cursor that has wrapped, the model stops and says so; what the memory holds then is not modelled.
- Wire.DecodeEncode: map keys are unsigned integers, as the privileges have; other key types of the templates are not modelled.
- Timers.TimerManager.TakeAllTimeout: where an `int` product of the re-arming overflows the model stops and says so. The clock is a `steady_clock`, so its readings do not go back.
- Timers.TimerManager.AddTimer: the same clock.
- Split.SplitString: requires that the source's loop ends; `NonEmptyEnds` and `EmptyCarryEnds` say when.
- The one `parse_json` method is split into one method for each branch; its error texts are reduced to the failure flag.
- `std::priority_queue` is a set with minimum extraction; timers with the same deadline may fire in any order. Callbacks that add or delete timers while firing do not occur.
- Sharing of sub-values by `shared_ptr` is an arbitrary relation between equal values, not a heap: all places that hold the same value share alike, where a heap may share some of them and not others.
- In ThreadLoop a pass of `takeAllTimeout` is "some number of callbacks, each with a frame push"; reads and writes of the atomic flag `run_` are single steps.
- In Mqtt the unlocked clear after a timeout and every locked block are single steps; tearing of the string they race on is not modelled. The Paho client, topics, connection state and reconnection are not part of this model.
- The video pump and its setup, which have the shape of the audio pump.
- The MAC is an arbitrary function with 32-byte results; HMAC itself, `HmacSign` with SHA-1, hex encoding and decoding.
- `std::set` and `std::unordered_map` operators of the packer, its `write` and `reset`, and the packable macros of other arities.
- The `int` length arithmetic of base64 is exact; inputs near 2^31 bytes would overflow it.
- RTC engine, room and device calls, audio file saving, configuration, argument parsing, file and path helpers.
