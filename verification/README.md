# embed-cert-manager, modelled in Dafny

embed-cert-manager keeps the TLS certificates of embedded devices current. For
every job it reads an INI file, asks an EJBCA certificate authority over SOAP
whether a valid certificate exists and whether it is due for renewal, has the
device produce a certificate signing request over SSH, enrols that request by
PKCS#10 and installs the certificate.

This project models the decision and decoding logic of that process and
proves what it does:

- **Validity strings** such as `"1y 2mo 4d 1h"` and their conversion to
  seconds in a uint64 (`Validity`, with worked examples in
  `ValidityExamples`).
- **Configuration handling**: trimming lists, the ChangeAfter derivation in
  `Finalize`, loading the job files, and building the shell commands from
  `${section_name}` references (`Config`, `ShellPreparation`).
- **Certificate data from EJBCA**: raw DER or up to two rounds of base64
  (section 4 of RFC 4648), the choice of the best valid certificate, the
  renewal window, DER length trimming (section 8.1.3 of ITU-T X.690) and
  duration formatting (`ParseHelper`, `Durations`, `Base64`).
- **The shared deadline manager** that holds one context for all SOAP calls
  (`ContextManager`).
- **The SOAP client code**:
  - the findCerts lookup and the renewal decision built on it (`FindCerts`);
  - PKCS#10 enrolment (`Pkcs10`);
  - the connection test, renewal check, enrolment checks and PEM output
    (`EjbcaClient`);
  - the hand-written XML (un)marshalling of findCerts (`EjbcaWs`).
- **Choosing the CSR** from a command's output on the device, as a stream of
  PEM blocks (section 7 of RFC 7468) (`Session`, `Pem`).

**How library code enters the model.** Library code the program calls is not
modelled. It enters as function-typed parameters that the contracts quantify
over:

- parsing certificates and requests, and checking signatures;
- pem.Decode;
- the SOAP calls;
- reflection over the configuration structs;
- the file loader.

**Representation.** Times are whole seconds, except where Go's nanosecond
`time.Duration` arithmetic changes an outcome; that arithmetic is written out
in `GoInt`. Go's 64-bit wrap-around and saturation are explicit wherever they
matter. Go strings that carry binary data are `seq<byte>`.

**Where the code's form is kept.** Code that loops or updates state is kept
imperative:

- classes with `modifies` clauses: `Job`, `Configuration`, `ContextStore`,
  `SessionReturn`, `Decoder`, `FindCertsResponse`, `Encoder`, `Buffer`;
- methods with loop invariants.

Each of these is proved against a function that states what it computes.
Straight-line decisions are functions, with lemmas stating their properties.

## Model

| member | source | states |
|---|---|---|
| Validity.ParseEJBCAValidity | config/iniFileHandler.go:234-323 | The scanner, loop by loop, returns ValidityValue(s): the string is trimmed of Unicode whitespace and then read byte by byte, so only ASCII whitespace separates; the result is the exact sum of the terms when every term is well formed and the sum fits a uint64, and 0 otherwise |
| Validity.ValidityValue | config/iniFileHandler.go:234-323 | The value of a string is always a uint64; Tokens, AllTokens, NoTokens and NoTotal state when it is the exact sum and when it is 0 |
| Validity.Step | config/iniFileHandler.go:252-307 | One pass of the scanner from a position: ASCII whitespace (9-13 and 32), digits, ASCII whitespace, unit. A term it reads moves strictly forward, has a count within the uint64 range, and carries the seconds of its unit |
| Validity.UnitPrefix | config/iniFileHandler.go:283-307 | The unit that a text starts with takes at least one of its characters and no more than it has |
| Validity.Seconds | config/iniFileHandler.go:240-246 | Every unit is worth between one second and a year, so a count times a unit can be checked against the uint64 range |
| Validity.SkipWhitespace | config/iniFileHandler.go:252-257 | The whitespace loop stops at the end of the run of ASCII whitespace (9-13 and 32): unicode.IsSpace of a byte widened to a rune, where the first byte of a non-ASCII character is never a space |
| Validity.SkipDigits | config/iniFileHandler.go:260-267 | The digit loop stops at the end of the digit run |
| Validity.ReadUnit | config/iniFileHandler.go:283-307 | The unit switch agrees with UnitPrefix, and `ok` is false exactly for an unknown unit |
| Validity.ScanTerm | config/iniFileHandler.go:250-307 | One pass of the outer loop computes Step, including the ParseUint range check |
| Validity.AddTerm | config/iniFileHandler.go:309-319 | The guards on the wrapped product and on the running total accept exactly when the exact new total fits a uint64; the total is then exact |
| Validity.MulGuard | config/iniFileHandler.go:309-313 | The division test on the wrapped product fails exactly when the product fits |
| Validity.NoTokens | config/iniFileHandler.go:264-281 | A malformed term anywhere makes the whole string worth 0, never a partial total |
| Validity.AllTokens | config/iniFileHandler.go:319-322 | Terms read to the end whose sum fits give that exact sum |
| Validity.NoTotal | config/iniFileHandler.go:314-318 | Once the running total exceeds the uint64 range, the whole string is worth 0 |
| Validity.AllWhitespaceIsZero | config/iniFileHandler.go:235-238 | An empty or all-whitespace string is worth 0 |
| Validity.TermRead | config/iniFileHandler.go:252-307 | Digits, then ASCII whitespace, then a unit name, followed by the end or by anything but 'o', are read as one term whose count is the digits' decimal value, or as a malformed term when that value overflows |
| Validity.WordAt | config/iniFileHandler.go:252-307 | A term written as decimal digits, any ASCII whitespace and a unit name, followed by the end or by anything but 'o', is read as exactly that term |
| Validity.TokensSkipBlank | config/iniFileHandler.go:252-257 | ASCII whitespace in front of a term does not change what is read |
| Validity.NonAsciiIsZero | config/iniFileHandler.go:250-307 | A character above 0x7F anywhere in the trimmed text makes the value 0: its first UTF-8 byte is no whitespace, digit or unit |
| Validity.TokensSpell | config/iniFileHandler.go:248-320 | Terms written one after another are read back as the tokens they stand for; when a count overflows, nothing is read |
| Validity.SpellRoundTrip | config/iniFileHandler.go:234-323 | Well-written terms, with any ASCII whitespace between number and unit and any, possibly none, between terms, are worth the exact sum of their seconds when it fits a uint64, and 0 otherwise |
| Validity.CanonicalMeant | config/iniFileHandler.go:260-267 | The canonical spelling (decimal, no leading zeros) is well written and stands for the tokens it spells |
| Validity.FormatRoundTrip | config/iniFileHandler.go:234-323 | Printing tokens canonically and parsing the text gives their exact total, or 0 when it overflows |
| ValidityExamples.UnknownUnitIsZero | config/iniFileHandler.go:274-306 | "1min" is worth 0: "m" is read as minutes, then "in" is no number, and no partial total is kept |
| ValidityExamples.UnitThenNumber | config/iniFileHandler.go:252-303 | "1d2h" is one day plus two hours; a number may follow a unit directly |
| ValidityExamples.MonthsBeforeMinutes | config/iniFileHandler.go:284-290 | "2mo" is two months, because "mo" is tried before "m" |
| ValidityExamples.MinutesAlone | config/iniFileHandler.go:290-293 | "2m" is two minutes |
| ValidityExamples.MissingUnitIsZero | config/iniFileHandler.go:274-281 | "5", a number without a unit, is worth 0 |
| ValidityExamples.NoBreakSpaceIsZero | config/iniFileHandler.go:252-257 | "1\u00A0d" is worth 0: the no-break space survives the trim and is not skipped between number and unit |
| Config.TrimSlice | config/iniFileHandler.go:148-157 | The loop returns Trimmed(in) |
| Config.Trimmed | config/iniFileHandler.go:148-157 | The trimmed non-empty elements in order; TrimmedAppend, TrimmedClean, TrimmedSound and TrimmedComplete state its properties |
| Config.TrimmedAppend | config/iniFileHandler.go:148-157 | Trimming works element by element, so list order is kept |
| Config.TrimmedClean | config/iniFileHandler.go:148-157 | The result never grows; every kept element is non-empty and already trimmed |
| Config.TrimmedSound | config/iniFileHandler.go:148-157 | Every kept element is the trimmed form of some input element |
| Config.TrimmedComplete | config/iniFileHandler.go:148-157 | Every input element whose trimmed form is non-empty is kept in that form |
| Config.GetShellVariables | config/iniFileHandler.go:198-220 | The loop returns ShellBlock(envs): one assignment line per entry, in list order; "" for an empty list |
| Config.ShellBlock | config/iniFileHandler.go:198-220 | The assignment lines of the entries in order; ShellBlockAppend, ShellBlockSingle and EntryLine state its properties |
| Config.ShellBlockAppend | config/iniFileHandler.go:198-220 | The block of a concatenation is the concatenation of the blocks |
| Config.ShellBlockSingle | config/iniFileHandler.go:215-216 | One entry gives exactly its line |
| Config.EntryLine | config/iniFileHandler.go:206-216 | A well-formed entry's line is `<section>_<var>="<value>"\n`. Section "job" reads the job, "ca" the CA, any other the target |
| Config.CommandVerbatim | config/config.go:66-72 | The script ends with the command verbatim; a command without `${` is the whole script |
| Config.SingleReferenceCommand | config/config.go:66-72 | A command that is one reference `${sec_key}` is preceded by exactly its one assignment line |
| Config.Job.constructor | config/iniFileHandler.go:78-135 | A job holds the record it is built from |
| Config.Job.Finalize | config/iniFileHandler.go:164-185 | ChangeAfter becomes ValidityValue(ChangeAfterRaw). A readable CA file is kept as CACertLoaded. Nothing else changes |
| Config.Job.GetCSRCmd | config/config.go:66-72 | CommandEnvList becomes the references of CSRCommand; the result is their assignment block followed by CSRCommand |
| Config.Job.GetCertSetCmd | config/config.go:81-88 | The same over SetCertCommand |
| Config.LoadedAppend | config/config.go:43-52 | Jobs are loaded file by file, in file order |
| Config.Loaded | config/config.go:43-52 | The jobs of the files that load, in file order; LoadedAppend, LoadedElements and LoadedAll state its properties |
| Config.LoadedElements | config/config.go:43-52 | A job is loaded exactly when some file yields it; there are never more jobs than files |
| Config.LoadedAll | config/config.go:43-52 | When every file loads, job k comes from file k |
| Config.Configuration.constructor | config/config.go:31-56 | A configuration starts without jobs |
| Config.Configuration.Load | config/config.go:31-56 | An empty file list gives the error "File list was empty" and leaves Jobs untouched. Otherwise Jobs becomes the loaded jobs in file order |
| ShellPreparation.ExtractVars | config/shellPreparation.go:38-61 | The loop returns ExtractedVars(s) |
| ShellPreparation.ExtractedVars | config/shellPreparation.go:38-61 | The entries of the distinct references in order; ExtractedVarsSound, EnvsElements and SingleReference state its properties |
| ShellPreparation.CloseAt | config/shellPreparation.go:39 | Finds the first `}` at or after a position, with none before it |
| ShellPreparation.NamesOccur | config/shellPreparation.go:39-41 | Every name found is non-empty, holds no `}`, and stands as `${name}` in the text |
| ShellPreparation.NameRecognised | config/shellPreparation.go:39-41 | A reference `${name}` with a non-empty name free of `}` is found, and the scan continues after it |
| ShellPreparation.EmptyReferenceSkipped | config/shellPreparation.go:39-41 | `${}` is not a reference |
| ShellPreparation.NoOpeningNoNames | config/shellPreparation.go:41 | Text without `${` holds no references |
| ShellPreparation.DedupSameElements | config/shellPreparation.go:43-49 | Deduplication neither loses nor invents a name |
| ShellPreparation.DedupDistinct | config/shellPreparation.go:43-49 | Each name is kept once |
| ShellPreparation.DedupFirstOrder | config/shellPreparation.go:43-49 | Names are kept in the order of their first occurrence |
| ShellPreparation.ToEnvVarParsed | config/shellPreparation.go:40-56 | An entry is either the one with empty fields, or it keeps the name and ShellVariable == IniSection + "_" + IniVariable, with the section in [-a-zA-Z0-9]+ and the key in [-a-zA-Z0-9_]+ |
| ShellPreparation.ToEnvVarSplits | config/shellPreparation.go:50-52 | A name of that form is parsed into exactly that section and key |
| ShellPreparation.EnvsElements | config/shellPreparation.go:50-56 | One entry per distinct name, in order |
| ShellPreparation.ExtractedVarsSound | config/shellPreparation.go:38-61 | Every entry is either the empty-field entry or a well-formed reference standing in the text; no two entries come from the same name |
| ShellPreparation.NoReferencesNoVars | config/shellPreparation.go:41-46 | Text without `${` yields no entries |
| ShellPreparation.SingleReference | config/shellPreparation.go:38-61 | Text that is exactly one reference `${sec_key}` yields that one entry |
| ParseHelper.ParseEJBCACertData | ejbcaHttpsClient/ejbcaParseHelper.go:42-85 | The loop of at most two base64 rounds returns CertData(b) |
| ParseHelper.CertData | ejbcaHttpsClient/ejbcaParseHelper.go:42-85 | What parseEJBCAcertData returns: trim; empty is "empty certificateData"; data starting with 0x30 that parses is the certificate; otherwise up to two base64 rounds (DecodeRounds). CertDataEmpty, CertDataDirect, FirstDerIsFinal, AtMostTwoRounds, NoRoundSucceeds and CertDataRoundTrip state its properties |
| ParseHelper.CertDataEmpty | ejbcaHttpsClient/ejbcaParseHelper.go:43-46 | The "empty certificateData" error occurs exactly when nothing but whitespace is left |
| ParseHelper.CertDataDirect | ejbcaHttpsClient/ejbcaParseHelper.go:49-53 | Data starting with 0x30 that parses is returned without any base64 decoding |
| ParseHelper.DecodeRoundsNotEmpty | ejbcaHttpsClient/ejbcaParseHelper.go:60-84 | The rounds never report empty data |
| ParseHelper.FirstDerIsFinal | ejbcaHttpsClient/ejbcaParseHelper.go:72-80 | The first decoded output starting with 0x30 is final; if it does not parse, the result is an error |
| ParseHelper.AtMostTwoRounds | ejbcaHttpsClient/ejbcaParseHelper.go:60-84 | Data that needs a third decode to reach DER is rejected |
| ParseHelper.NoRoundSucceeds | ejbcaHttpsClient/ejbcaParseHelper.go:65-84 | A base64 failure on the first round ends with "could not obtain DER" |
| ParseHelper.RoundOfEncoding | ejbcaHttpsClient/ejbcaParseHelper.go:61-69 | One round's clean-up and decode over an encoding gives the encoded bytes back |
| ParseHelper.RoundOverEncoding | ejbcaHttpsClient/ejbcaParseHelper.go:60-82 | A round over the encoding of x goes on exactly as if x had been decoded |
| ParseHelper.EncodedDerStart | ejbcaHttpsClient/ejbcaParseHelper.go:49-72 | The base64 of DER starts with 'M' and the base64 of that with 'T', so neither is mistaken for DER |
| ParseHelper.EncodedDerFound | ejbcaHttpsClient/ejbcaParseHelper.go:55-80 | b64(d) and b64(b64(d)) both give d's certificate |
| ParseHelper.CertDataRoundTrip | ejbcaHttpsClient/ejbcaParseHelper.go:42-85 | d, b64(d) and b64(b64(d)) give the same certificate when d does not end in a whitespace byte |
| ParseHelper.EncodedOnceFound | ejbcaHttpsClient/ejbcaParseHelper.go:55-80 | b64(d) gives d's certificate in the first base64 round |
| ParseHelper.EncodedTwiceFound | ejbcaHttpsClient/ejbcaParseHelper.go:55-80 | b64(b64(d)) gives d's certificate in the second base64 round |
| ParseHelper.KeepDerRoundTrip | ejbcaHttpsClient/ejbcaParseHelper.go:42-85 | With the raw bytes tried as DER before trimming (CertDataKeepDer), d, b64(d) and b64(b64(d)) give d's certificate whatever byte d ends with |
| ParseHelper.TrailingSpaceLost | ejbcaHttpsClient/ejbcaParseHelper.go:43-53 | Raw DER ending in a whitespace byte is trimmed before parsing, while its base64 is not: the two paths can disagree |
| ParseHelper.StandardInvertsEncode | ejbcaHttpsClient/ejbcaParseHelper.go:65 | The modelled standard decoder inverts the standard encoder |
| ParseHelper.PickBestValidCert | ejbcaHttpsClient/ejbcaParseHelper.go:100-111 | The loop returns BestValid: nil exactly when no candidate has NotBefore ≤ now < NotAfter, and otherwise the first candidate with the latest NotAfter among the valid ones |
| ParseHelper.BestValid | ejbcaHttpsClient/ejbcaParseHelper.go:100-111 | The position PickBestValidCert settles on, candidate by candidate; BestValidIsBest and BestIsUnique state that it is the unique best valid candidate |
| ParseHelper.BestValidIsBest | ejbcaHttpsClient/ejbcaParseHelper.go:100-111 | Nothing is chosen exactly when no candidate is valid; otherwise the best one is |
| ParseHelper.BestIsUnique | ejbcaHttpsClient/ejbcaParseHelper.go:106 | Ties go to the first, so at most one candidate is the best |
| ParseHelper.NeedsRenew | ejbcaHttpsClient/ejbcaParseHelper.go:128-147 | Without a certificate a renewal is always due; with one, it is due from the moment the remaining lifetime has fallen to the window, that is from notAfter minus the window on |
| ParseHelper.NeedsRenewMonotone | ejbcaHttpsClient/ejbcaParseHelper.go:128-147 | A wider window never turns a renewal off |
| ParseHelper.NeedsRenewLater | ejbcaHttpsClient/ejbcaParseHelper.go:128-147 | Once a renewal is due it stays due |
| ParseHelper.NeedsRenewBoundary | ejbcaHttpsClient/ejbcaParseHelper.go:134-136 | The boundary is inclusive: exactly the window left renews, one second more does not |
| ParseHelper.TrimToAsn1Object | ejbcaHttpsClient/ejbcaParseHelper.go:162-204 | The length loop, with int64 wrap-around, returns TrimToAsn1(b) |
| ParseHelper.TrimToAsn1 | ejbcaHttpsClient/ejbcaParseHelper.go:162-204 | An error returns the input unchanged; success returns a non-empty prefix |
| ParseHelper.TrimShortForm | ejbcaHttpsClient/ejbcaParseHelper.go:177-203 | Short form: the prefix of length 2+L, or an error when that exceeds the input |
| ParseHelper.TrimLongForm | ejbcaHttpsClient/ejbcaParseHelper.go:181-203 | Long form with up to seven octets: the prefix of length 2+n+value, or an error when that exceeds the input |
| ParseHelper.LengthOctets64 | ejbcaHttpsClient/ejbcaParseHelper.go:188-191 | The accumulated length is an int64 |
| ParseHelper.LengthOctetsExact | ejbcaHttpsClient/ejbcaParseHelper.go:188-191 | Up to seven length octets never wrap |
| ParseHelper.TrimToAsn1Exact | ejbcaHttpsClient/ejbcaParseHelper.go:162-204 | With exact length arithmetic, an error returns the input unchanged, and success returns a prefix that holds at least the tag and the first length octet |
| ParseHelper.TrimExactIdempotent | ejbcaHttpsClient/ejbcaParseHelper.go:194-203 | With exact lengths, a trimmed object trims to itself |
| ParseHelper.TrimWrapCounterexample | ejbcaHttpsClient/ejbcaParseHelper.go:189-196 | With eight 0xFF length octets the code returns a 9-byte prefix, which fails when trimmed again |
| Durations.HumanDur | ejbcaHttpsClient/ejbcaParseHelper.go:216-249 | The method returns DurationText(d) |
| Durations.DurationText | ejbcaHttpsClient/ejbcaParseHelper.go:216-249 | The text humanDur builds; DurationOfNonNegative, DurationUnderASecond, DurationTruncates, DurationNegative and DurationMinimum state its properties |
| Durations.Split | ejbcaHttpsClient/ejbcaParseHelper.go:222-235 | The parts add up to the seconds. For non-negative input each part is within its unit's range |
| Durations.Parts | ejbcaHttpsClient/ejbcaParseHelper.go:237-242 | There is always at least one part |
| Durations.PartsOnlySeconds | ejbcaHttpsClient/ejbcaParseHelper.go:238-242 | With no positive larger unit, the seconds are the only part |
| Durations.DurationOfNonNegative | ejbcaHttpsClient/ejbcaParseHelper.go:222-244 | A non-negative duration is the text of its whole seconds |
| Durations.DurationUnderASecond | ejbcaHttpsClient/ejbcaParseHelper.go:222-242 | Less than a second, zero included, reads "0s" |
| Durations.DurationTruncates | ejbcaHttpsClient/ejbcaParseHelper.go:222 | Sub-second parts are dropped |
| Durations.DurationNegative | ejbcaHttpsClient/ejbcaParseHelper.go:217-247 | A negative duration reads "-" followed by its magnitude |
| Durations.DurationMinimum | ejbcaHttpsClient/ejbcaParseHelper.go:217-247 | For the minimum int64 the negation wraps, giving "--16s" |
| ContextManager.ContextStore.constructor | ejbcaHttpsClient/ejbcaContextManager.go:22-27 | Nothing is stored or created at the start |
| ContextManager.ContextStore.GetContextRenewed | ejbcaHttpsClient/ejbcaContextManager.go:54-82 | The new state and the context handed out are Acquire(old state, renew, tout) |
| ContextManager.Acquire | ejbcaHttpsClient/ejbcaContextManager.go:54-82 | The store and context after a get; AcquireStores, AcquireReuses, AcquireCreates and RenewIsFresh state its properties |
| ContextManager.ContextStore.GetContext | ejbcaHttpsClient/ejbcaContextManager.go:37-39 | GetContextRenewed(false, 0) |
| ContextManager.ContextStore.CancelStoredContext | ejbcaHttpsClient/ejbcaContextManager.go:89-98 | The new state is Release(old state) |
| ContextManager.Release | ejbcaHttpsClient/ejbcaContextManager.go:89-98 | The store after a cancel; ReleaseClears, ReleaseIdempotent and GetAfterRelease state its properties |
| ContextManager.Initial | ejbcaHttpsClient/ejbcaContextManager.go:22-27 | The initial state stores nothing and keeps the invariant: storedCtx and storedStop are set together, the stop cancels the stored context, and a stored context was never cancelled |
| ContextManager.TimeoutFor | ejbcaHttpsClient/ejbcaContextManager.go:73-75 | The timeout is always positive, and a positive tout is used as is |
| ContextManager.AcquireStores | ejbcaHttpsClient/ejbcaContextManager.go:79-80 | After any get, the context handed out is stored with its cancel function, and the invariant holds |
| ContextManager.AcquireReuses | ejbcaHttpsClient/ejbcaContextManager.go:68-70 | Without renewal a stored context is handed out again: nothing is created or cancelled, and tout is ignored |
| ContextManager.AcquireCreates | ejbcaHttpsClient/ejbcaContextManager.go:72-81 | With nothing stored, a new context with the chosen timeout is created, and nothing is cancelled |
| ContextManager.RenewIsFresh | ejbcaHttpsClient/ejbcaContextManager.go:58-81 | Renewal cancels the stored context, if any, and hands out a context never seen before |
| ContextManager.ReleaseClears | ejbcaHttpsClient/ejbcaContextManager.go:96-97 | After a cancel nothing is stored, and the invariant holds |
| ContextManager.ReleaseIdempotent | ejbcaHttpsClient/ejbcaContextManager.go:89-98 | A second cancel cancels nothing more |
| ContextManager.GetAfterRelease | ejbcaHttpsClient/ejbcaContextManager.go:72-97 | After a cancel, the next get creates a new context |
| Session.SessionReturn.constructor | ssh/SessionHandling.go:26-30 | A result holds its outputs and no CSR yet |
| Session.SessionReturn.ParseCSRFromString | ssh/SessionHandling.go:47-94 | Returns the PEM text of the first acceptable block and stores it as CertCSR. With no acceptable block it returns nil and CertCSR is unchanged. StdOut is left as it was |
| Session.FirstCsr | ssh/SessionHandling.go:47-94 | The first acceptable PEM block of the output; FirstAcceptableIsFirst and CsrTextFramesBlock state its properties |
| Session.FirstAcceptableIsFirst | ssh/SessionHandling.go:50-72 | The block found is the first one with a CSR label, a parsing request and a valid signature; nothing is found only when no block qualifies |
| Session.CsrTextFramesBlock | ssh/SessionHandling.go:74-89 | The accepted block has a CSR label, parses and has a valid signature, and is one of the blocks of the output; the CSR text is its BEGIN line, its END line with the same label, and between them a body that decodes to the block's bytes |
| Pem.EncodeFrame | ssh/SessionHandling.go:74-80 | An encoded block is its BEGIN line, the body and its END line, each with the label |
| Pem.Encode | ejbcaHttpsClient/ejbcaClient.go:234-237 | pem.Encode: BEGIN line, base64 body in lines, END line; EncodeFrame and BodyRoundTrip state its properties |
| Pem.BodyRoundTrip | ejbcaHttpsClient/ejbcaClient.go:234-237 | The body of an encoded block decodes to the payload |
| Pem.Lines | ejbcaHttpsClient/ejbcaClient.go:234-237 | Breaking base64 text into lines gives nothing exactly when the text is empty, and otherwise ends with a newline |
| Pem.LinesRemove | ejbcaHttpsClient/ejbcaClient.go:234-237 | Removing the line breaks gives the unbroken text back |
| FindCerts.FindCertsViaGowsdl | ejbcaHttpsClient/ejbcaGowsdlFindCerts.go:47-85 | The loop returns Found: the request is (name, onlyValid); a SOAP error is returned as is; otherwise the certificates of the items that carry data, in order, or the first decoding error with no partial list |
| FindCerts.Found | ejbcaHttpsClient/ejbcaGowsdlFindCerts.go:47-85 | What FindCertsViaGowsdl returns: the SOAP error as is, or the decoded certificates of the items that carry data; CarryingAll, CollectOk and CollectErr state its properties |
| FindCerts.CarryingAppend | ejbcaHttpsClient/ejbcaGowsdlFindCerts.go:69-71 | Items are filtered one by one; a nil item and an item without data are dropped |
| FindCerts.CarryingNonEmpty | ejbcaHttpsClient/ejbcaGowsdlFindCerts.go:69-71 | Every entry kept is non-empty data |
| FindCerts.CarryingAll | ejbcaHttpsClient/ejbcaGowsdlFindCerts.go:66-84 | When every item carries data, every item is kept, in order |
| FindCerts.CollectSnoc | ejbcaHttpsClient/ejbcaGowsdlFindCerts.go:72-82 | One more entry either fails the lookup or adds its certificate at the end |
| FindCerts.CollectErrStays | ejbcaHttpsClient/ejbcaGowsdlFindCerts.go:77-80 | After a failure, later entries change nothing |
| FindCerts.CollectOk | ejbcaHttpsClient/ejbcaGowsdlFindCerts.go:66-84 | Success exactly when every entry decodes, with one certificate per entry at its position |
| FindCerts.CollectErr | ejbcaHttpsClient/ejbcaGowsdlFindCerts.go:77-80 | A failure reports the error of the first entry that does not decode |
| FindCerts.DecodeCertDataNeedsBase64 | ejbcaHttpsClient/ejbcaGowsdlFindCerts.go:100-116 | Text that is not base64 after the clean-up is a base64 error; success passes the decoded bytes to parseEJBCAcertData |
| FindCerts.DecodeCertDataToX509 | ejbcaHttpsClient/ejbcaGowsdlFindCerts.go:100-116 | Clean-up, one base64 decode, then parseEJBCAcertData; DecodeCertDataNeedsBase64 and DecodeCertDataRoundTrip state its properties |
| FindCerts.DecodeCertDataRoundTrip | ejbcaHttpsClient/ejbcaGowsdlFindCerts.go:100-116 | b64(d), b64(b64(d)) and b64(b64(b64(d))) all give d's certificate |
| FindCerts.ShouldRenewDecision | ejbcaHttpsClient/ejbcaGowsdlFindCerts.go:133-150 | A failed lookup gives (false, err). Otherwise renewal is skipped exactly when some certificate is valid now and expires more than 14 days from now |
| FindCerts.ShouldRenewViaGowsdl | ejbcaHttpsClient/ejbcaGowsdlFindCerts.go:133-150 | The 14-day renewal decision over the findCerts lookup; ShouldRenewDecision states it |
| Pkcs10.CsrConversion | ejbcaHttpsClient/ejbcaGetPkcs10Cert.go:124-147 | The checks fail in order: empty text, no block, unparsable request, invalid signature. On success the output decodes back to the first block's bytes |
| Pkcs10.CsrPemToBase64Der | ejbcaHttpsClient/ejbcaGetPkcs10Cert.go:124-147 | The CSR checks in order and the base64 of the first block; CsrConversion and LabelNotChecked state its properties |
| Pkcs10.LabelNotChecked | ejbcaHttpsClient/ejbcaGetPkcs10Cert.go:129-133 | Only the first block's bytes matter, not its label |
| Pkcs10.ChecksBeforeCall | ejbcaHttpsClient/ejbcaGetPkcs10Cert.go:60-78 | A missing client fails first; no request is sent unless the CSR is acceptable |
| Pkcs10.Pkcs10RequestViaGowsdl | ejbcaHttpsClient/ejbcaGetPkcs10Cert.go:60-109 | The PKCS#10 enrolment: client check, CSR conversion, the request and the decode of the response; ChecksBeforeCall and IssuedFromRequest state its properties |
| Pkcs10.IssuedFromRequest | ejbcaHttpsClient/ejbcaGetPkcs10Cert.go:80-108 | A certificate comes only from a request with Arg0 = username, Arg1 = password, Arg2 = base64 of the CSR, Arg3 = "" and Arg4 = "CERTIFICATE", and from a non-empty response that parseEJBCAcertData accepts |
| EjbcaClient.TestConnectionStatus | ejbcaHttpsClient/ejbcaClient.go:42-64 | The test passes exactly for status codes 200-299 |
| EjbcaClient.TestConnection | ejbcaHttpsClient/ejbcaClient.go:42-64 | The connection test passes exactly for a response with a 2xx status |
| EjbcaClient.WindowNanos | ejbcaHttpsClient/ejbcaClient.go:154 | The window converted from uint64 to time.Duration is an int64 |
| EjbcaClient.SubNanos | ejbcaHttpsClient/ejbcaParseHelper.go:134 | Sub gives an int64 |
| EjbcaClient.WindowAgrees | ejbcaHttpsClient/ejbcaClient.go:154 | For windows up to MaxWindowSeconds, the comparison in nanoseconds decides as the one in seconds does |
| EjbcaClient.CheckCertStateDecision | ejbcaHttpsClient/ejbcaClient.go:133-163 | Renewal is skipped only when the lookup succeeds and a valid certificate outlives the window; within MaxWindowSeconds, that means more than ChangeAfter seconds remain |
| EjbcaClient.CheckCertState | ejbcaHttpsClient/ejbcaClient.go:133-163 | Renew on a failed lookup, on no certificate, on none valid now, and otherwise when the best valid one expires within the window; CheckCertStateDecision states it |
| EjbcaClient.WindowWraps | ejbcaHttpsClient/ejbcaClient.go:154 | One second beyond MaxWindowSeconds the window wraps negative, and a valid certificate is never renewed |
| EjbcaClient.WindowNanosSaturated | ejbcaHttpsClient/ejbcaClient.go:154 | The intended window is a non-negative int64: the window as written up to MaxWindowSeconds, the largest int64 beyond |
| EjbcaClient.SaturatedWindowRenews | ejbcaHttpsClient/ejbcaClient.go:154 | With the saturated window every renewal NeedsRenew asks for in seconds is made, for any ChangeAfter |
| EjbcaClient.SaturatedWindowMonotone | ejbcaHttpsClient/ejbcaClient.go:154 | With the saturated window a longer ChangeAfter never turns a renewal off |
| EjbcaClient.EnrolledChecks | ejbcaHttpsClient/ejbcaClient.go:192-217 | A certificate is returned exactly when enrolment succeeds and now is not after NotAfter (NotAfter == now is accepted). The hostname check changes nothing |
| EjbcaClient.Enrolled | ejbcaHttpsClient/ejbcaClient.go:177-218 | What EnrollOrRenewCert returns: the certificate enrolled by PKCS#10 unless it is already expired; EnrolledChecks states it |
| EjbcaClient.EnrollOrRenewCert | ejbcaHttpsClient/ejbcaClient.go:177-218 | Takes the shared context as GetContext does and returns Enrolled(...) |
| EjbcaClient.Buffer.constructor | ejbcaHttpsClient/ejbcaClient.go:233 | An empty buffer |
| EjbcaClient.Buffer.Write | ejbcaHttpsClient/ejbcaClient.go:234-237 | Appends the bytes |
| EjbcaClient.PemEncode | ejbcaHttpsClient/ejbcaClient.go:234-237 | Appends the encoded block to the buffer |
| EjbcaClient.CertToPEM | ejbcaHttpsClient/ejbcaClient.go:232-242 | Returns one PEM block labelled CERTIFICATE over cert.Raw, and no error |
| EjbcaClient.CertToPEMFrame | ejbcaHttpsClient/ejbcaClient.go:232-242 | That text is BEGIN/END CERTIFICATE around a body that decodes to cert.Raw verbatim |
| EjbcaWs.FindCertsResponse.UnmarshalXML | ejbcaws/unmarshal_fix_findcerts_response.go:22-61 | Sets the name and clears Return_. Then it reads as Decode says: `return` elements are appended in order, other elements are skipped, and it ends at the matching end element, at EOF or at the first error. Certificates read before an error are kept |
| EjbcaWs.Decoder.Token | ejbcaws/unmarshal_fix_findcerts_response.go:27-33 | Returns the next event and advances, or reports EOF at the end |
| EjbcaWs.Decoder.constructor | ejbcaws/unmarshal_fix_findcerts_response.go:22 | A decoder at the first event |
| EjbcaWs.FindCertsResponse.constructor | ejbcaws/unmarshal_fix_findcerts_response.go:22-24 | An empty response |
| EjbcaWs.Decode | ejbcaws/unmarshal_fix_findcerts_response.go:26-60 | Decoding never reads past the end of the stream |
| EjbcaWs.DecodeReadsReturns | ejbcaws/unmarshal_fix_findcerts_response.go:37-48 | The certificates are those of the `return` elements read, in document order |
| EjbcaWs.DecodeErrorSource | ejbcaws/unmarshal_fix_findcerts_response.go:32-52 | An error comes from the last event read: a failed token, or content that could not be decoded or skipped |
| EjbcaWs.DecodeStopsAtEnd | ejbcaws/unmarshal_fix_findcerts_response.go:55-58 | Success before EOF ends at the end element of the start element |
| EjbcaWs.EofEndsDecoding | ejbcaws/unmarshal_fix_findcerts_response.go:28-31 | EOF without a closing element is a successful end with everything read |
| EjbcaWs.MarshalXML | ejbcaws/marshal_fix.go:7-33 | Writes tns:findCerts with xmlns:tns, arg1, arg0, the end tag and a flush, in that order, up to the first failing operation, and returns that operation's error; the start element passed in is ignored |
| EjbcaWs.FindCertsItems | ejbcaws/marshal_fix.go:7-33 | The items MarshalXML writes, in order; MarshalXML and StopsAtUnique state what is written |
| EjbcaWs.Encoder.Put | ejbcaws/marshal_fix.go:16-31 | One operation writes its item or reports its fault |
| EjbcaWs.Encoder.constructor | ejbcaws/marshal_fix.go:7 | An encoder with nothing written |
| EjbcaWs.StopsAtUnique | ejbcaws/marshal_fix.go:16-32 | The stopping point is unique; without a fault the whole request is written |
| Base64.Encode | ejbcaHttpsClient/ejbcaGetPkcs10Cert.go:146 | The encoding has length 4·⌈n/3⌉ |
| Base64.DecodeEncode | ejbcaHttpsClient/ejbcaGetPkcs10Cert.go:146 | Decoding an encoding gives the bytes back |
| Base64.DecodeNeedsQuanta | ejbcaHttpsClient/ejbcaParseHelper.go:65-68 | Text whose length, without line breaks, is not a multiple of four is rejected |
| Base64.OneCharRejected | ejbcaHttpsClient/ejbcaParseHelper.go:65-68 | A single character is not base64 text |
| Base64.EncodeHasNoSpace | ejbcaHttpsClient/ejbcaParseHelper.go:61-64 | Encoded text holds no whitespace, so the clean-up leaves it alone |
| Bytes.TrimSpace | ejbcaHttpsClient/ejbcaParseHelper.go:43 | The trimmed text is never longer than the input, and neither of its ends is ASCII whitespace |
| Bytes.TrimSpaceInfix | ejbcaHttpsClient/ejbcaParseHelper.go:43 | The trimmed text is the infix of the input between its leading and its trailing ASCII whitespace: everything before and after it is whitespace |
| Bytes.StripForBase64 | ejbcaHttpsClient/ejbcaParseHelper.go:61-64 | The clean-up never lengthens its input |
| Bytes.StripKeeps | ejbcaHttpsClient/ejbcaParseHelper.go:61-64 | The clean-up keeps exactly the bytes of the trimmed text other than '\n', '\r' and ' ', in order |
| Bytes.StripIsFilter | ejbcaHttpsClient/ejbcaParseHelper.go:61-64 | Removing '\n', then '\r', then ' ' is filtering out those three bytes |
| Seqs.FilterMembers | ejbcaHttpsClient/ejbcaParseHelper.go:61-64 | An element is in the filtered sequence exactly when it is in the input and satisfies the predicate |
| Bytes.StripNoop | ejbcaHttpsClient/ejbcaParseHelper.go:61-64 | Text without whitespace is left alone by the trim and by the clean-up |
| Bytes.TrailingSpaceTrimmed | ejbcaHttpsClient/ejbcaParseHelper.go:43 | A trailing whitespace byte is trimmed |
| Text.TrimSpaceIdempotent | config/iniFileHandler.go:153 | Trimming twice is trimming once |
| Text.DecimalRoundTrip | config/iniFileHandler.go:268-272 | Reading back the decimal rendering of n gives n |
| GoInt.Wrap64 | ejbcaHttpsClient/ejbcaParseHelper.go:189-191 | The wrapped value is an int64 congruent to the exact value modulo 2^64, and equals it when it fits |
| GoInt.Saturate64 | ejbcaHttpsClient/ejbcaParseHelper.go:134 | The nearest int64 |
| GoInt.Quot | ejbcaHttpsClient/ejbcaParseHelper.go:231-234 | Go's truncating division |
| GoInt.Rem | ejbcaHttpsClient/ejbcaParseHelper.go:231-234 | Go's remainder, with the sign of the dividend |

## Left out

- The mutex of the context manager, real clocks and timers: the operations run one at a time, and a context is an id with its timeout.
- Logging, and the SSH and HTTP transport: `NewMTLSClient`, the TLS setup, and the SOAP calls themselves. The calls are parameters that return a response or an error.
- x509 parsing, CSR parsing, signature checking, hostname verification, pem.Decode and encoding/xml are parameters. The XML decoder is a stream of events in which a child element already carries the outcome of decoding or skipping its content.
- XML escaping of the element text in MarshalXML.
- The reflection in `FieldByIniTag`: a `Lookup` parameter gives the value of a field by section and name.
- `getFiles`, `loadOneJobINI` and the INI library: `Load` takes the file list and a loader. Go's nil file list is the empty list.
- The file read in `Finalize` (the existence check and the read): it is a parameter holding the file content when it can be read.
- Bytes.TrimSpace: only ASCII whitespace is trimmed. bytes.TrimSpace also trims Unicode spaces in UTF-8.
- FindCerts.DecodeCertDataToX509: strings.TrimSpace is modelled with the same ASCII byte trim.
- Pkcs10.CsrPemToBase64Der: the base64 string is kept as bytes (it is ASCII).
- The context passed to the SOAP calls is not modelled beyond which one is used: it only bounds the calls in time.
- ParseHelper.NeedsRenew: times are whole seconds. The nanosecond arithmetic of time.Duration is modelled in EjbcaClient (WindowNanos, SubNanos, WindowAgrees, WindowWraps). FindCerts.ShouldRenewViaGowsdl uses the 14-day window exactly, because it fits without wrapping.
- The doc comment of `CheckCertState` and the code differ; the model follows the code.
- EjbcaWs.FindCertsResponse.UnmarshalXML: in the source, the error check after DecodeElement or Skip comes after the element is read. The model attaches the outcome to the start event, so the order of those checks is not separately visible.
- A `Job` is a class and is passed by reference. The copies that Go makes of the `Target` struct when reading it are not modelled.
- CertToPEM: pem.Encode writing into a bytes.Buffer does not fail, so the error branch is not reachable in the model.
- ParseHelper.CertDataRoundTrip: it requires that the DER not end in a whitespace byte. ParseHelper.TrailingSpaceLost shows why the raw path needs this. ParseHelper.CertDataKeepDer, which tries the raw bytes before trimming, needs no such requirement (KeepDerRoundTrip); the rest of the model follows the code as written.
- Validity: strings are sequences of code points, while ParseEJBCAValidity reads the bytes of their UTF-8 encoding. The scanner's whitespace is therefore the ASCII whitespace, and any other character stops it (NonAsciiIsZero). Invalid UTF-8 cannot be written in the model.
- EjbcaClient.CheckCertState keeps the wrapping window of the code; the saturated window (WindowNanosSaturated) is stated beside it and not used by it.

## Findings

| source | as written | input that shows it | evidently intended | confidence | as-written member | corrected member |
|---|---|---|---|---|---|---|
| ejbcaHttpsClient/ejbcaParseHelper.go:189-196 | The long-form length is accumulated in a Go `int` with shifts, which wraps for eight or more length octets. The `total <= 0` check does not catch every wrap. | `30 88 FF FF FF FF FF FF FF FF 00`: the length reads as -1, the total is 9, and a 9-byte prefix is returned that does not hold its own header, so trimming it again fails | The content length read exactly, so that a trimmed object holds its whole header and trims to itself | not executed | ParseHelper.TrimWrapCounterexample | ParseHelper.TrimToAsn1Exact |
| ejbcaHttpsClient/ejbcaParseHelper.go:43-53 | The data is trimmed of ASCII whitespace before it is tried as DER, so binary DER whose last byte is 0x09-0x0D or 0x20 loses that byte, while its base64 is decoded intact | The DER `30 20` for a parser that accepts it but not `30`: the bytes give "could not obtain DER", their base64 gives the certificate | Raw DER tried as received, so that DER and its base64 give the same certificate | not executed | ParseHelper.TrailingSpaceLost | ParseHelper.KeepDerRoundTrip |
| ejbcaHttpsClient/ejbcaClient.go:154 | `time.Duration(ChangeAfter) * time.Second` wraps in int64 for more than 9223372036 seconds (about 292 years) | A ChangeAfter of 9223372037 seconds, one more than fits: the window is negative, and a certificate valid now is never renewed however soon it expires | The window saturated at the largest Duration, so that a longer ChangeAfter never renews less | not executed | EjbcaClient.WindowWraps | EjbcaClient.SaturatedWindowRenews |
