# Privacy gateway: verified model

The gateway stands between an application and a chat provider. It detects personal data in the
messages of a request, replaces it by tokens or redaction markers according to a policy (or blocks
the request), sends what is left to the provider, optionally redacts the reply, writes one record
to a hash-chained audit log and restores the caller's values in the reply.

This project models four parts of it and proves what they are for:

- **The audit log** (`AuditModel`, `AuditTheorems`, `AuditLogger`, `CheckpointStore`,
  `AuditProtocol`): appending under a retry loop, the verifier, the checkpoint file, and all of
  them running concurrently. The verifier walks arbitrary tables. SHA-256 and HMAC are arbitrary
  functions with 64 hexadecimal digits as results; they are *not* assumed injective. Where a
  conclusion rests on them, the lemma says: or these two rows have the same hash (or MAC) for
  different inputs, or this row carries a MAC for a hash the log never issued.
- **Tokenizing and restoring** (`Tokens`, `TokenPattern`, `Tokenization`, `Mediator`,
  `RequestModel`, `RoundTrip`, `NonInterference`, `ResponseScan`): the token pattern and its scan,
  minting, replacing spans, the round trip over all messages of a request, and what the provider
  can learn.
- **The decision summary** (`Policy`).
- **The request pipeline** (`Pipeline`, `Gateway`, `Promises`, `TextPromises`, `ServiceTheorems`,
  `Witnesses`): one request with its failing exits and the exceptions that escape it, its effects in
  order, its audit record and its response, spelled out in terms of the request, the policy and the
  environment; and requests over the life of the service.

`Text` and `Wrappers` hold decimal numerals, splitting and searching of texts, and `Option`.

## How the pieces fit

The code that changes state is modelled by classes whose methods are proved against functions:
`AuditLogger.VerifyChain` against `Verify`, `TokenizationContext.TokenFor` and `Rehydrate` against
`Mint` and `Substitute`, `PIIMediator.Apply` against `Sanitized`, and `ChatGateway.Handle` against
`Serves`. The theorems are about those functions.

What the program cannot decide is an argument. For a request it is the environment `Env`: candidate
namespaces, the detector's answer for each text, what the anonymizer makes of the detections in it
and whether it gets through, the provider's outcome, how SQLite answers each append attempt, and
whether the checkpoint can be saved. For the concurrent model it is the sequence of steps.

Assumptions, all of them visible as preconditions:

- whatever detections the anonymizer is given, overlapping or not, it replaces spans that lie in
  the text in order, do not overlap, are of the types detected and cover every detected position,
  and it visits each of them at least once if it gets through (`Mediator.Resolves`,
  `Mediator.ValidPass`; detections that do not overlap are such spans themselves);
- candidate namespaces are eight upper-case hexadecimal digits (`IsNamespace`);
- an attempt that fails in SQLite commits nothing;
- timestamps the gateway writes hold no `|` (`Timestamp`); timestamps in tables to be verified may.

## What the proofs found

- **Policy types that are not names.** `load_policy` accepts any string as an entity type, but the
  token pattern only matches types of the form `[A-Z][A-Z0-9_]*`. A value tokenized under another
  type is never restored. `RoundTrip.LowerCaseTypeIsLost` is such a request; it takes a mediator
  whose detector reports the type `email`, which can be injected but is not built in.
  `RoundTrip.RoundTripExactly` proves that a message comes back if and only if every type tokenized
  in it is a name, as long as no type in it holds the opening `[[PGW_` and namespace of the
  request's tokens and no tokenized type begins like the end of a token, as in `A_1]]`.
- **Not every outcome is recorded.** `docs/ARCHITECTURE.md` (line 95) promises one record for every
  outcome. A request that is cancelled during the provider call, a reply whose text has no encoding
  (a lone surrogate: it is hashed outside of any `try`), and a failure of the research mode leave
  the handler without one, although the provider was called. `ServiceTheorems.OneRecord` proves
  that, failing appends aside, these are the only cases; `Witnesses.ReplyNotHashed` is a request of
  this kind.
- **A recorded success may be reported as a failure.** When the record of a successful request is
  committed but its checkpoint cannot be saved, or the response cannot be rendered in the end, the
  client gets a 500 although the log holds a record with status 200
  (`Witnesses.CheckpointNotSaved`, `Witnesses.ReplyNotRendered`).
  `ServiceTheorems.RecordedStatusIsReported` proves that a committed record and the response
  disagree in these cases and in no others.
- **The tail may stay unverified although nothing failed.** The checkpoint is saved after the
  transaction, outside the lock, so an older checkpoint may overwrite a newer one.
  `AuditProtocol.TailMayStayUnverified` is such a run. `AuditProtocol.TailVerifiedExactly` proves
  that the tail is verified if and only if the last checkpoint to reach the store was saved by the
  call that committed the newest row, and `AuditProtocol.VerificationNeverInvalid` that the
  verifier never answers INVALID.
- **The verifier may raise instead of answering.** Text that is not ASCII in the MAC of a row or of
  a checkpoint makes `compare_digest` raise (`AuditTheorems.ForeignMacRaises`).
  `AuditTheorems.RaisesExactly` characterises the tables and checkpoints on which this happens.
- **The table of outcomes in `docs/ARCHITECTURE.md` (lines 97-102) omits the failing response scan**,
  which the code records as an event of its own. The model follows the code.

## Model

| member | source | states |
|---|---|---|
| AuditTheorems.VerifyExact | gateway/audit_logger.py:350-437 | without a checkpoint, VALID exactly for non-empty tables all of whose rows pass the four checks; EMPTY exactly for the empty table |
| AuditTheorems.VerifyStopsAtLeast | gateway/audit_logger.py:365-401 | a table with a failing row is decided at the least one: INVALID naming it and the number of rows examined, unless that row is right but for a MAC that is not ASCII, on which the verifier raises |
| AuditTheorems.VerifyAllGood | gateway/audit_logger.py:406-437 | when every row passes, only the checkpoint decides |
| AuditTheorems.RaisesExactly | gateway/audit_logger.py:395-416 | the verifier raises if and only if it comes to such a row, or every row passes and the checkpoint names one of them with a MAC that is not ASCII |
| AuditTheorems.StoreRaisesExactly | gateway/audit_logger.py:439-456 | the same for verification against a checkpoint store |
| AuditTheorems.EmptyStoreExact | gateway/audit_logger.py:444-455 | on every table, with a store that has no checkpoint: EMPTY exactly for the empty table, unverifiable exactly for a non-empty one all of whose rows pass, INVALID at the least failing row otherwise, unless the verifier raises |
| AuditTheorems.StoreIsConsulted | gateway/audit_logger.py:442-456 | without a store, and with a checkpoint in it, the answer is that of the chain walk |
| AuditTheorems.ForeignMacRaises | gateway/audit_logger.py:395-416 | a table, and a checkpoint, on which it raises, with the first character beyond ASCII |
| AuditTheorems.CheckpointExact | gateway/audit_logger.py:406-435 | with a checkpoint, VALID exactly if all rows pass and the checkpoint names one of them with its MAC, the tail verified if that is the newest; INVALID exactly in all other cases in which the verifier does not raise |
| AuditTheorems.ValidMeans | gateway/audit_logger.py:365-404 | what VALID vouches for, column by column and with the hashed text written out |
| AuditTheorems.ReasonIsFirstCheck | gateway/audit_logger.py:368-401 | the reason given is the first of the four checks that the least failing row fails |
| AuditTheorems.ReasonOfCheckpoint | gateway/audit_logger.py:350-435 | the reason each kind of checkpoint gives rise to when every row passes or there is none |
| AuditTheorems.AppendAndVerify | gateway/audit_logger.py:223-260 | appending to a VALID or EMPTY log gives VALID; appending to any other table changes nothing about the answer |
| AuditTheorems.LogIsGood | gateway/audit_logger.py:226-253 | every history of appends leaves a table whose rows all pass, one row for each entry |
| AuditTheorems.LogPrefix | gateway/audit_logger.py:228-234 | the first k rows of a log are the log of the first k appends |
| AuditTheorems.AppendedRow | gateway/audit_logger.py:223-253 | the appended row, column by column and with the hashed text written out |
| AuditTheorems.LogIsWritten | gateway/audit_logger.py:125-127 | the timestamps and schema versions of appended rows are the gateway's own |
| AuditTheorems.WrittenIsLog | gateway/audit_logger.py:226-253 | a table of good rows with such timestamps is the log of a history of appends |
| AuditTheorems.MaterialInjective | gateway/audit_logger.py:141 | the hashed text determines id, schema version, previous hash and the joined timestamp and payload |
| AuditTheorems.SameRecordExact | gateway/audit_logger.py:125-141 | where no timestamp holds a bar, it determines timestamp and payload as well |
| AuditTheorems.HashCommitsToPrefix | gateway/audit_logger.py:130-142 | equal hashes at one position mean equal records at all positions up to it, or two records that collide |
| AuditTheorems.CheckpointCommitsToPrefix | gateway/audit_logger.py:309-316 | any table that verifies VALID against a checkpoint of an honest log begins with that log, and is as long if the tail is verified; or a collision is exhibited |
| AuditTheorems.NamedRowVerifies | gateway/audit_logger.py:406-435 | a checkpoint that names a row of a good table verifies it, and its tail exactly when it names the last row |
| AuditTheorems.UnforgedRow | gateway/audit_logger.py:174-175 | a good row whose MAC the logger issued is one of the logger's rows, or a collision |
| AuditTheorems.WaysOut | gateway/audit_logger.py:141-175 | what the collisions and forgeries are that the results on tampering make exception of |
| AuditTheorems.TamperEvidence | gateway/audit_logger.py:365-404 | any table that verifies VALID without a checkpoint is a prefix of the honest log, or exhibits a collision or a forged MAC |
| AuditTheorems.TruncationNeedsCheckpoint | gateway/audit_logger.py:326-331 | a truncated log verifies VALID without a checkpoint, and INVALID with one that names a record cut off |
| AuditTheorems.RunIsWritten | gateway/audit_logger.py:228-239 | appends and restored earlier copies only ever produce logs of appends |
| AuditTheorems.RollbackAndRegrow | gateway/audit_logger.py:406-435 | over any run of appends and rollbacks, verification against a checkpoint kept outside is VALID if and only if the present log extends the one it was taken from, or a collision is exhibited |
| AuditLogger.Deciding | gateway/audit_logger.py:196-206 | attempts are repeated past operational errors and no others |
| AuditLogger.AuditLogger.AppendOnce | gateway/audit_logger.py:223-264 | inserts the successor of the newest row, or changes nothing |
| AuditLogger.AuditLogger.Append | gateway/audit_logger.py:177-221 | at most one row; a normal return means one row and a saved checkpoint naming it; AuditWriteError means none after the last retry, or one whose checkpoint was not saved |
| AuditLogger.AuditLogger.CreateCheckpoint | gateway/audit_logger.py:309-316 | names the newest row, none for an empty log |
| AuditLogger.AuditLogger.VerifyChain | gateway/audit_logger.py:318-437 | the loop over the rows answers as the specification does, on every table and checkpoint |
| AuditLogger.AuditLogger.VerifyAgainstStore | gateway/audit_logger.py:439-456 | without a stored checkpoint a VALID chain is reported as unverifiable; otherwise the stored checkpoint is used |
| CheckpointStore.LocalFileCheckpointStore.Save | gateway/checkpoint.py:71-83 | wherever it fails, the stored checkpoint is the old one; otherwise the new one |
| AuditProtocol.NoFork | gateway/audit_logger.py:196-260 | in every interleaving of concurrent calls the rows are numbered 1..n, linked, the log of one history, and verify VALID (EMPTY at first) |
| AuditProtocol.OnlyGrows | gateway/audit_logger.py:226-260 | committed rows never change or disappear, whatever is rolled back |
| AuditProtocol.StoreIsSound | gateway/checkpoint.py:71-100 | loading yields nothing before the first completed rename, afterwards exactly the last one renamed, and that names a committed row with its MAC |
| AuditProtocol.VerificationNeverInvalid | gateway/audit_logger.py:439-456 | a verifier that loads the checkpoint and later reads the rows never answers INVALID, even when saves land out of order |
| AuditProtocol.LoadsBeforeReading | gateway/audit_logger.py:444-456 | in every run a verification compares the checkpoint stored when it begins with the rows there when it goes on, whatever happens in between |
| AuditProtocol.FailedAttempt | gateway/audit_logger.py:196-206 | a failing attempt leaves neither row nor lock, however far it got, and after the fifth the call gives up |
| AuditProtocol.TailMayStayUnverified | gateway/audit_logger.py:208-221 | a run of two calls that both return, after which the stored checkpoint is stale |
| AuditProtocol.TailVerifiedExactly | gateway/audit_logger.py:208-221 | in every run, the tail is verified if and only if the last completed rename belongs to the call that committed the newest row; once all calls have returned with a store there is such a rename |
| AuditProtocol.AppendAccounting | gateway/audit_logger.py:195-221 | rows and committed calls correspond one to one, and each way a call ends means none or one of them |
| AuditProtocol.ReturnedRowsAreReceipts | gateway/audit_logger.py:262-264 | however calls interleave, the row a call returned stays in the table with the call's payload, and no other call returned a row with its id |
| Text.DecInjective | gateway/audit_logger.py:141 | decimal numerals are read back uniquely, negative ones included |
| Text.DecIsCanonical | gateway/audit_logger.py:141 | the numeral of a natural number is the one run of digits without leading zeros that denotes it |
| Text.JoinSnoc | gateway/gateway_api.py:286 | texts are joined by single newlines |
| Text.SplitAtFinal | gateway/tokenization.py:91 | the last occurrence of a separator divides a text uniquely |
| TokenPattern.TokenIsPattern | gateway/tokenization.py:39 | the recognizer of tokens accepts exactly what the regular expression matches as a whole |
| Tokens.OccurrencesDisjoint | gateway/tokenization.py:39 | two occurrences of the token pattern in any text are equal or do not overlap |
| Tokens.MatchLengthComplete | gateway/tokenization.py:39 | at each position at most one match begins, and the scan finds it |
| Tokens.SubstituteIsSimultaneous | gateway/tokenization.py:96-112 | the left-to-right scan replaces exactly the occurrences of minted tokens, all at once, and keeps every other character |
| Tokens.SubstituteSplits | gateway/tokenization.py:96-112 | where no minted token straddles the cut, two parts of a text are substituted separately |
| Tokens.NothingToSubstitute | gateway/tokenization.py:96-112 | text without minted tokens stays as it is |
| Tokens.SubstituteAround | gateway/tokenization.py:96-112 | a text that begins and ends like a token, or a marker in which no minted token occurs, is substituted apart from whatever surrounds it |
| Tokenization.TokenInjective | gateway/tokenization.py:91 | type and number can be read back from a token, even for types that end in digits or underscores |
| Tokenization.TokenMatches | gateway/tokenization.py:39 | a minted token matches the pattern if and only if its type is a name |
| Tokenization.MintAllHolds | gateway/tokenization.py:77-94 | after any calls the dictionaries hold exactly the distinct keys seen, the n-th of its type with number n |
| Tokenization.MintingIsBijective | gateway/tokenization.py:85-94 | keys seen and tokens minted correspond one to one, and every token maps back to its value |
| Tokenization.NumbersAreDense | gateway/tokenization.py:90 | the numbers of each type are exactly 1..n |
| Tokenization.PatternGivesTokens | gateway/tokenization.py:77-94 | calls with the same types and the same pattern of equal values receive the same tokens |
| Tokenization.TokensRevealOnlyThePattern | gateway/tokenization.py:77-94 | and only those: equal tokens, call by call, if and only if equal patterns |
| Tokenization.TokenizationContext.Create | gateway/tokenization.py:55-75 | takes the first candidate that the request text does not contain; fails exactly when all are contained |
| Tokenization.TokenizationContext.TokenFor | gateway/tokenization.py:77-94 | mints for a new key, repeats the token of a known one |
| Tokenization.TokenizationContext.Rehydrate | gateway/tokenization.py:96-112 | the single pass computes the substitution of the context's tokens |
| Tokenization.TokenizationContext.Clear | gateway/tokenization.py:114-119 | no mapping is left, the namespace stays |
| Policy.SortedUnique | gateway/policy.py:124 | a strictly sorted list is determined by its elements |
| Policy.LessMeans | gateway/policy.py:124 | the order of types is decided at the first position at which they differ, or by length |
| Policy.BuildDecisions | gateway/policy.py:103-138 | one entry for each detected listed type, strictly sorted, each with its action, count and range of scores |
| Policy.BlockIsFaithful | gateway/policy.py:141-143 | the blocked types are exactly the detected types with action BLOCK |
| Policy.NothingBlocked | gateway/policy.py:141-143 | none is reported if and only if no detection is blocked |
| Policy.SummaryIgnoresOrder | gateway/policy.py:118-138 | the summary depends on the bag of detections only |
| Policy.CountsAddUp | gateway/policy.py:119-131 | every listed detection is counted exactly once |
| Mediator.PIIMediator.Select | gateway/pii_mediator.py:142-151 | picks what is tokenized or redacted, in order; fails exactly on a BLOCK detection |
| Mediator.PIIMediator.Visit | gateway/pii_mediator.py:179-188 | mints for the visited spans, in the order visited |
| Mediator.PIIMediator.Apply | gateway/pii_mediator.py:115-177 | on any detections, fails exactly on a BLOCK detection, a tokenized span without context or an unfinished pass; otherwise each span gives way to its token or marker and the gaps stay |
| Mediator.NeedsContextMeans | gateway/pii_mediator.py:156-163 | a context is needed exactly if some detection is of a type listed to be tokenized |
| Mediator.PIIMediator.RedactAll | gateway/pii_mediator.py:190-209 | fails exactly if the pass does; otherwise every span gives way to its marker |
| Mediator.Splice | gateway/pii_mediator.py:172-177 | putting pieces in the place of spans weaves them between the gaps |
| RequestModel.SubstituteWeave | gateway/tokenization.py:96-112 | text woven from gaps and tokens or markers is substituted piece by piece, whatever the gaps contain |
| RequestModel.WeaveValues | gateway/pii_mediator.py:172-177 | gaps and the spans' own values make up the text |
| RequestModel.NothingDetectedIsLeft | gateway/pii_mediator.py:142-177 | no character of a detection that the policy lists to be tokenized or redacted is left in what is sent as it stands |
| RequestModel.GapIs | gateway/pii_mediator.py:172-177 | what is left as it stands are the stretches between neighbouring spans |
| RequestModel.OnlyMediatedIsReplaced | gateway/pii_mediator.py:150-166 | whatever is replaced is of a detected type that the policy lists to be tokenized or redacted |
| RequestModel.MarkerSeparates | gateway/pii_mediator.py:166 | the marker of a type that does not hold the opening of the context's tokens is never mistaken for a token or part of one |
| RoundTrip.OtherTokenStays | gateway/tokenization.py:39 | a token whose type is not a name is left as it is, even with brackets in its type |
| RoundTrip.MessageReturns | gateway/tokenization.py:96-112 | what rehydrating a sanitized message yields, gap by gap and piece by piece |
| RoundTrip.RequestRoundTrip | gateway/gateway_api.py:285-338 | rehydrating a sanitized message of a request gives the message with only its redacted spans replaced, and exactly the message if none is redacted; asked of the message's own types only |
| RoundTrip.RoundTripExactly | gateway/policy.py:96 | whatever types the policy file lists, the message returns if and only if every type tokenized in it is a name; the message's own types hold no opening of the request's tokens and, if tokenized, do not begin like the end of one |
| RoundTrip.LowerCaseTypeIsLost | gateway/policy.py:96 | a concrete request whose value is not restored |
| NonInterference.NonInterference | gateway/gateway_api.py:332-338 | requests that agree outside mediated spans and in the pattern of tokenized values are sanitized alike |
| NonInterference.PiecesFromText | gateway/gateway_api.py:332-338 | tokens and markers can be read back from a text if the gaps and types are known |
| NonInterference.ProviderSeesThePattern | gateway/gateway_api.py:332-338 | requests alike outside the spans are sanitized to the same texts if and only if their tokenized values show the same pattern of equality |
| ResponseScan.ResponsePolicyRedacts | gateway/gateway_api.py:179-184 | under the response policy nothing is blocked, no context is needed and every replacement is a marker |
| ResponseScan.RehydrateRedacted | gateway/gateway_api.py:414-422 | rehydrating a redacted reply rehydrates the gaps and keeps the markers |
| ResponseScan.RehydrateAround | gateway/gateway_api.py:484-488 | where no minted token overlaps a span, the reply itself rehydrates gap by gap |
| ResponseScan.RedactionCommutes | gateway/gateway_api.py:414-488 | then redacting before rehydrating equals redacting after it |
| Pipeline.ScoredHasBlock | gateway/gateway_api.py:288-295 | the detections summed up hold a blocked one if and only if some message does |
| Pipeline.BlockedWhen | gateway/gateway_api.py:312-313 | types are reported as blocked if and only if some message holds such a detection, and exactly those |
| Pipeline.SanitizedIsStable | gateway/gateway_api.py:333-338 | a sanitized message does not change its meaning when later messages mint more tokens |
| Pipeline.SentStep | gateway/gateway_api.py:333-338 | sanitizing message after message in one context yields what the finished context would |
| Pipeline.NothingToRestore | gateway/gateway_api.py:484 | skipping rehydration for an empty context changes nothing |
| Pipeline.EffectsAreOrdered | gateway/gateway_api.py:279-488 | the provider is called at most once and after all messages are analyzed and sanitized; one append; rehydration only after it |
| Gateway.ChatGateway.Record | gateway/gateway_api.py:568-571 | commits the record or raises, as SQLite and the checkpoint file decide |
| Gateway.ChatGateway.Fail | gateway/gateway_api.py:558-565 | the original error is reported even if its record could not be written |
| Gateway.ChatGateway.Detect | gateway/gateway_api.py:283-297 | succeeds exactly if a namespace is free and every analysis returns, with the summary of all detections |
| Gateway.ChatGateway.Sanitize | gateway/gateway_api.py:332-339 | succeeds exactly if nothing is blocked and every pass completes, with all messages sanitized in the one context |
| Gateway.ChatGateway.ScanResponse | gateway/gateway_api.py:414-424 | succeeds exactly if every analysis and pass does, with the detected spans of each choice redacted |
| Gateway.ChatGateway.RehydrateChoices | gateway/gateway_api.py:484-488 | restores the tokens of the context in each choice that is text |
| Gateway.ChatGateway.Archive | gateway/gateway_api.py:468-478 | the research mode succeeds exactly if every pass over all detections does, with every span of every message redacted |
| Gateway.ChatGateway.Deliver | gateway/gateway_api.py:480-500 | nothing is restored or returned unless the record is written, nor returned unless it can be rendered |
| Gateway.ChatGateway.Complete | gateway/gateway_api.py:449-500 | the research mode comes before the record, and its failure leaves none |
| Gateway.ChatGateway.Finish | gateway/gateway_api.py:413-500 | a failing scan withholds the reply and is recorded as such |
| Gateway.ChatGateway.Forward | gateway/gateway_api.py:356-500 | which event, if any, is recorded after the provider call and what the client gets |
| Gateway.ChatGateway.Mediate | gateway/gateway_api.py:332-500 | what is sent is the request sanitized in a context whose namespace it does not contain |
| Gateway.ChatGateway.ChatCompletions | gateway/gateway_api.py:262-500 | event, payload, table, effects and response of one request are those the environment calls for, on every exit and for every exception that escapes |
| Gateway.ChatGateway.Handle | gateway/gateway_api.py:225-239 | the same, and the token context is empty once the request is over |
| Promises.ReachesMeans | gateway/gateway_api.py:283-339 | a request reaches the provider exactly if a namespace is free, every message is analyzed, no detected type is blocked and no pass with something to replace fails |
| Promises.RefusalIsReported | gateway/gateway_api.py:297-353 | before the provider is called: 400 PGW-POLICY-BLOCKED for a blocked type, 500 PGW-DETECTOR-FAILURE for anything else that fails, on record and to the client |
| Promises.FailureIsReported | gateway/gateway_api.py:369-447 | once it is called: the status and code of a typed failure, 502 PGW-PROVIDER-RESPONSE for any other, 500 PGW-RESPONSE-SCAN-FAILURE for a failing scan |
| Promises.SuccessIsReported | gateway/gateway_api.py:449-500 | a success is recorded as 200 and delivered exactly if the record and its checkpoint are written and it can be rendered; otherwise 500 PGW-AUDIT-WRITE or no response |
| Promises.UnrecordedMeans | docs/ARCHITECTURE.md:95 | nothing is recorded exactly if the request is sent and then cancelled, its reply cannot be hashed, or the research mode fails on it; then there is no response either |
| Promises.RecordIsFaithful | gateway/gateway_api.py:298-463 | the record holds the hashes of the messages sent and of the reply as it came, exactly the blocked types, and whether the reply was scanned and restored |
| Promises.DecisionsAreFaithful | gateway/policy.py:103-138 | the decisions on record: one for each detected listed type, ascending, with the count and the range of scores over all messages of the request |
| Promises.LimitsAre | gateway/tokenization.py:41 | thirty-two namespaces and five appends are tried |
| TextPromises.SentAsPromised | gateway/gateway_api.py:332-338 | every message is sent in its place and role, with the marker of its type for each span to be redacted and a token that the context knows as its text for each to be tokenized |
| TextPromises.NothingIsSentInClear | gateway/pii_mediator.py:142-177 | no character of a detection to be tokenized or redacted is sent as it stands |
| TextPromises.OtherMessagesAreUnchanged | gateway/pii_mediator.py:153-154 | a message with nothing to tokenize or redact is sent unchanged |
| TextPromises.ScanRedacts | gateway/gateway_api.py:176-186 | in a scanned choice no position of a detection of a listed type is left unless the request policy allows the type, and nothing else is replaced |
| TextPromises.DeliveredAsPromised | gateway/gateway_api.py:414-500 | each choice is delivered redacted if responses are scanned, and then restored if the caller asked for that |
| TextPromises.ArchivedAsPromised | gateway/gateway_api.py:468-478 | in research mode the record holds every message in its role with a marker for all that was detected in it |
| ServiceTheorems.OneRecord | docs/ARCHITECTURE.md:95 | the table grows by exactly this request's record if and only if the append commits and no exception escapes before it; a 200 response has its record |
| ServiceTheorems.RecordedStatusIsReported | gateway/gateway_api.py:480-500 | when SQLite commits and nothing escapes, the client is told the recorded status if and only if the request is not a success whose checkpoint cannot be saved or whose response cannot be rendered |
| Witnesses.CheckpointNotSaved | gateway/audit_logger.py:208-220 | a request recorded as a success and answered with a 500 |
| Witnesses.ReplyNotRendered | gateway/gateway_api.py:494-500 | a request recorded as a success and not answered |
| Witnesses.ReplyNotHashed | gateway/gateway_api.py:406-408 | a request sent to the provider and not recorded |
| ServiceTheorems.SafeRun | gateway/gateway_api.py:279-488 | over every branch: one provider call at most, never with a blocked detection, after all sanitizing; the record before any restored value |
| ServiceTheorems.EffectsTakePlace | gateway/gateway_api.py:279-488 | everything analyzed, sanitized, sent, scanned, recorded and restored has its effect |
| ServiceTheorems.TailAfterRequest | gateway/gateway_api.py:558-571 | after a request the log verifies against the stored checkpoint, up to its tail exactly if the record and its checkpoint were written or nothing was recorded and the tail was verified before |
| ServiceTheorems.ServiceKeepsTheLog | gateway/gateway_api.py:558-571 | over the life of the service the table only grows, holds one row for each committed request, and verifies VALID |
| ServiceTheorems.AuditIdsAreReceipts | gateway/gateway_api.py:495-499 | the id a client was given names the record of its request at all later times, and no other client was given it |
| ServiceTheorems.ProviderCannotTell | gateway/gateway_api.py:332-368 | requests that differ only in mediated values are sent as the same messages if and only if the values show the same pattern, and then carry the same prompt hash and, for equal scores, the same decisions |
| ServiceTheorems.QuotedMessageReturns | gateway/gateway_api.py:484-488 | a message quoted by the provider reaches the client as the caller wrote it, up to redacted spans |
| ServiceTheorems.ScannedChoiceReturns | gateway/gateway_api.py:414-488 | a scanned reply is delivered with its detected spans redacted and the gaps rehydrated |

## Left out

- Detection itself (Presidio, spaCy, the NINO recognizer), and how the anonymizer resolves overlapping detections: its result is any list of spans as assumed above. A partial overlap in which an operator is handed more text than it replaces is not covered by that assumption.
- RoundTrip.RoundTripExactly: leaves open messages with a type that holds the opening and namespace of the request's own tokens, or with a tokenized type that begins like `A_1]]`. There a token may hold another one, and whether the text comes back depends on the values.
- ServiceTheorems.AuditIdsAreReceipts: requests one after another; for concurrent appends see AuditProtocol.ReturnedRowsAreReceipts.
- Policy.BuildDecisions: scores are reals and are not rounded to three decimals; the reason code, which repeats the action, is dropped.
- Loading a policy file: any mapping from strings to actions may come out of it.
- Durations, request ids, provider and model names in audit payloads, response headers and request metadata; a payload that cannot be encoded.
- JSON: payloads, prompts and replies are encoded by arbitrary functions (`Codec`).
- UTF-8: hashes are taken of the text itself, not of its bytes. That a reply has no encoding is a fact of the environment; the texts of a request are taken to have one.
- The insides of SHA-256, HMAC and `secrets`.
- SQLite beyond a table ordered by id, a write lock and atomic commit; the schema, its migration and the 64-bit column types (only the largest row id is modelled).
- Backing off between retries, and creating the checkpoint's parent directory.
- The checkpoint's `version` field; a file that is not whole stands for every content that does not parse.
- The provider adapters, and anything a provider does besides replying, failing or being cancelled.
- Request validation, admin endpoints, settings, error pages and logging.
- Gateway.ChatGateway.Handle: one request at a time; requests that overlap are covered for the audit log (`AuditProtocol`) but not for the trace of effects.
