# Slice selection and AMF availability in the OAI NSSF, modelled in Dafny

The Network Slice Selection Function answers two questions of other network
functions (sections 5.2.2.2.2 and 5.2.2.2.3 of 3GPP TS 29.531): which slices of a
requested NSSAI a registering UE is allowed and which AMF set should serve it,
and which network slice instance serves a PDU session. AMFs report what they
support with a PUT (section 5.3.2.2 of TS 29.531). The project models that logic
and proves what it guarantees, over every request, configuration and run.

| file | what it holds |
|---|---|
| `Seqs.dfy` | first match, filtering and sub-sequences of sequences |
| `Snssai.dfy` | S-NSSAIs, the matching relation and its key, covering |
| `Config.dfy` | the configuration object and the loader of the slice configuration file |
| `Selection.dfy` | the selection engine: its loops and the two handlers |
| `SelectionLaws.dfy` | exactness, monotonicity, congruence and stability of the engine |
| `LoaderLaws.dfy` | what the loader's prefix-on-error behaviour means for later answers |
| `Availability.dfy` | the PUT handler, as meant and as written |
| `StoreLaws.dfy` | runs of PUTs: shape, refinement of a map, order, commutation |
| `StoreAnswers.dfy` | what runs of PUTs mean for selections |
| `FrontEnds.dfy` | the application wrapper and the HTTP/1 and HTTP/2 front ends |
| `Service.dfy` | runs that interleave PUTs and selection requests |

## How it is modelled

- Functions that loop and assign are methods with loops; the configuration, the
  selection result and the problem details are objects that methods update.
  `http_code` is passed in and handed back. Logging has no counterpart.
- An S-NSSAI has an optional SD. An SD that is not set reads as one fixed default,
  because nothing in the source clears an SD after setting it. That default and
  `SST_MAX_STANDARDIZED_VALUE` are constants without a value: all results hold for
  every choice.
- A scalar of the configuration file is absent, malformed or a value; a list is a
  list of such nodes. A request reaches the front ends already parsed.
- The verdict of a registration (`Judge`) names how it ends; the handler is proved
  to end that way, and the lemmas say what each ending means without the handler.

## Where the source departs from what it says

- The PUT handler logs that it replaces or creates an AMF's data, and the interface
  comment says the NSSF is updated, but `src/nssf_app/nssf_slice_availability.cpp`
  works on copies at lines 25, 27 and 55, so the configured list never changes. Both
  are modelled. *Meant store*: `HandleCreateNssaiAvailability`, `Serve`, all of
  `StoreLaws` and `StoreAnswers` except `AsWrittenMeetsIntentIff`. *As written*:
  `HandleCreateAsWritten`, `ServeAsWritten`, `AsWrittenMeetsIntentIff`,
  `AsWrittenServesIff`, `StoredButNotServed`, `OnlyRegistrationsDiffer`.
- A registration with an unknown TAI, or without a requested or subscribed NSSAI,
  leaves the HTTP code alone (`RegistrationExact`). The reply then has code 0, unless
  HTTP/1 ran a PDU session part before it and keeps that part's code. HTTP/1 also
  answers 0 to a request with neither part (`CodelessReplyIff`). A PDU session with
  the same unknown TAI is answered 400 (`UnknownTaiAnswersZero`).
- The two front ends do not agree on every request (`FrontEndsAgreeIff`,
  `FrontEndsDisagree`).
- `docs/FEATURE_SET.md` lists the Allowed NSSAI and the AMF set as not determined;
  the code determines both.
- The wrapper fills problem details for a PDU session that ends in 403. No PDU
  session does (`AppPduSession`).
- The loader reads the MCC of an AMF's TAI twice and its MNC never; selection does
  not use that TAI.

## Model

| member | source | states |
|---|---|---|
| Slices.CompareSnssai | src/nssf_app/nssf_slice_selection.cpp:26-35 | two S-NSSAIs match iff the SSTs are equal and, from the threshold on, the SDs are, where a missing SD may stand for the default; this is equality of a key, hence an equivalence |
| Slices.SdIgnoredBelowThreshold | src/nssf_app/nssf_slice_selection.cpp:28-30 | the SD is ignored for exactly the SSTs below the threshold; above, a missing SD matches only itself and the explicit default |
| Slices.CoversIsKeyInclusion | src/nssf_app/nssf_slice_selection.cpp:65-74 | a support list covers a request iff the request's keys are among its keys |
| Slices.CoversExact | src/nssf_app/nssf_slice_selection.cpp:65-74 | a support list covers a request iff every requested S-NSSAI matches one with some supported SST and SD |
| SliceSelection.GetValidAmf | src/nssf_app/nssf_slice_selection.cpp:61-80 | the nested loops decide covering, in both directions |
| SliceSelection.CollectCandidates | src/nssf_app/nssf_slice_selection.cpp:89-97 | appends the ids of exactly the AMFs with one covering entry, in order, each position once |
| SliceSelection.GetValidAmfSet | src/nssf_app/nssf_slice_selection.cpp:82-107 | finds the first set with a candidate and writes that set's four fields and nothing else; on failure the result is untouched |
| SliceSelection.SetAllowedNssai | src/nssf_app/nssf_slice_selection.cpp:38-59 | one 3GPP-access Allowed NSSAI with the same S-NSSAIs, SDs and order |
| SliceSelection.ValidateRnssaiInPlmn | src/nssf_app/nssf_slice_selection.cpp:116-144 | accepts iff something matched; then Allowed is the matched part in order, else the whole request is recorded as rejected |
| SliceSelection.Partition | src/nssf_app/nssf_slice_selection.cpp:122-134 | matched and rejected are order-preserving and together the request as multisets; the size test means nothing matched, empty request included |
| SliceSelection.ValidateTa | src/nssf_app/nssf_slice_selection.cpp:172-188 | true iff MCC, MNC and TAC together are those of a configured entry |
| SliceSelection.ValidateNsi | src/nssf_app/nssf_slice_selection.cpp:146-170 | true iff some entry matches; the set fields of the first match are copied over |
| SliceSelection.HandleSliceInfoForRegistration | src/nssf_app/nssf_slice_selection.cpp:191-294 | the handler's flag, code and result are those of the verdict, for every code and result it is called with |
| SliceSelection.HandleSliceInfoForPduSession | src/nssf_app/nssf_slice_selection.cpp:296-359 | returns true, answers 200 and sets the NSI information under the same condition; nothing else is written |
| SelectionLaws.RegistrationExact | src/nssf_app/nssf_slice_selection.cpp:191-294 | the whole code table: the caller's code iff TAI unknown or an NSSAI missing, 503 for mapping or home PLMN, 200 iff one requested S-NSSAI is subscribed and one AMF entry covers all requested, else 403 |
| SelectionLaws.VerdictExact | src/nssf_app/nssf_slice_selection.cpp:191-294 | each verdict about S-NSSAIs by what request and configuration contain: none matches, no AMF covers, or granted from the first set that can |
| SelectionLaws.GrantedInfo | src/nssf_app/nssf_slice_selection.cpp:98-104 | a 200 answer holds the matched part of the request and the candidates and URIs of the first set that can serve all of it; no earlier set can |
| SelectionLaws.RefusedInfo | src/nssf_app/nssf_slice_selection.cpp:134-141 | a refused registration leaves the request as rejected iff S-NSSAIs were compared and none matched, the Allowed NSSAI of exactly the matched ones iff one matched and no AMF covers the request, else nothing; AMF fields never |
| SelectionLaws.CandidatesExact | src/nssf_app/nssf_slice_selection.cpp:87-97 | an id is a candidate iff some position with it serves; candidates are a sub-sequence of the set's ids, duplicate-free when those are |
| SelectionLaws.PduExact | src/nssf_app/nssf_slice_selection.cpp:296-359 | the whole code table: 503 iff roaming or a home PLMN, else 200 iff the TAI is admissible and an NSI entry matches, else 400; the result changes under 200 only, by the first matching entry, unchanged |
| SelectionLaws.AmfSetsDecideLast | src/nssf_app/nssf_slice_selection.cpp:276-287 | changing the AMF sets changes only verdicts of requests that pass every other check |
| SelectionLaws.LargerRequestLater | src/nssf_app/nssf_slice_selection.cpp:61-107 | a larger request is served from a weakly later set or not at all, and in each set its candidates are a sub-sequence |
| SelectionLaws.LargerSupportEarlier | src/nssf_app/nssf_slice_selection.cpp:61-107 | more support, entries, AMFs or sets move the chosen set weakly earlier |
| SelectionLaws.RegistrationMonotone | src/nssf_app/nssf_slice_selection.cpp:191-294 | both for whole registrations: a grant survives shrinking the request to a part with something subscribed, and growing support |
| SelectionLaws.SelectionCongruence | src/nssf_app/nssf_slice_selection.cpp:61-107 | requests with the same keys get the same set and candidates |
| SelectionLaws.RegistrationCongruence | src/nssf_app/nssf_slice_selection.cpp:266-288 | reordering, repeating or replacing by matching S-NSSAIs changes neither verdict nor AMF fields |
| SelectionLaws.MatchedCongruence | src/nssf_app/nssf_slice_selection.cpp:122-132 | the keys of the Allowed NSSAI are those both requested and subscribed |
| SelectionLaws.AllowedPermutes | src/nssf_app/nssf_slice_selection.cpp:122-141 | permuting the request permutes the Allowed NSSAI |
| SelectionLaws.PduCongruence | src/nssf_app/nssf_slice_selection.cpp:152-161 | matching S-NSSAIs get the same PDU session answer |
| SelectionLaws.LoadExtends | src/nssf_app/nssf_config.cpp:179-215 | loading appends, and what is appended does not depend on what is there |
| SelectionLaws.AnswersSurviveExtension | src/nssf_app/nssf_slice_selection.cpp:88-106 | a granted answer of either handler is unchanged by any configuration appended later |
| SelectionLaws.LoadTwiceSameAnswers | src/nssf_app/nssf_config.cpp:179-215 | loading a file twice changes no answer, success or failure |
| Config.NssfConfig.ParseNsiInfo | src/nssf_app/nssf_config.cpp:44-75 | appends the readable prefix of the section; true iff that is all of it |
| Config.NssfConfig.ParseTaInfo | src/nssf_app/nssf_config.cpp:78-101 | appends the readable prefix of the section; true iff that is all of it |
| Config.NssfConfig.ParseNssai | src/nssf_app/nssf_config.cpp:104-135 | support list all or nothing, TAI kept once read; true iff everything is readable |
| Config.NssfConfig.ParseAmfList | src/nssf_app/nssf_config.cpp:137-155 | the entries before the first AMF without a readable id, whatever their availability data |
| Config.NssfConfig.ParseAmfInfo | src/nssf_app/nssf_config.cpp:158-177 | appends whole sets only, up to the first unreadable one |
| Config.NssfConfig.ParseConfig | src/nssf_app/nssf_config.cpp:179-215 | success iff file and all three sections are there, whatever the section parsers report; sections before a missing one stay loaded; only a missing file is caught, one that is no YAML mapping throws and loads nothing |
| LoaderLaws.LongestPrefix | src/nssf_app/nssf_config.cpp:46-73 | the loaded list is the longest readable prefix and no other; nodes behind an unreadable one have no effect |
| LoaderLaws.LoadedExact | src/nssf_app/nssf_config.cpp:190-212 | what is loaded, by the fields of the file: each NSI, TAI, AMF set, AMF, SST and SD from its own field; where each section stops; a section counts only after the ones before it |
| LoaderLaws.TaiListedByFile | src/nssf_app/nssf_config.cpp:81-94 | a TAI is configured iff a node has exactly its MCC, MNC and TAC and all nodes before are readable |
| LoaderLaws.SetsAreLoadedWhole | src/nssf_app/nssf_config.cpp:161-171 | a set is stored iff its three fields and all its AMF ids are readable, and then with those fields, one entry per AMF and its S-NSSAIs, by the fields of the node |
| LoaderLaws.LoadedAmfServes | src/nssf_app/nssf_config.cpp:120-148 | a loaded AMF serves exactly the requests whose S-NSSAIs match an SST and SD of its node, all of it being readable; else only the empty request |
| LoaderLaws.UnreadableAmfIsInvisible | src/nssf_app/nssf_config.cpp:143-148 | deleting an AMF whose data could not be read changes no registration verdict or answer |
| SliceAvailability.HandleCreateNssaiAvailability | src/nssf_app/nssf_slice_availability.cpp:34-87 | meant: the first set with the id gets its first entry of the AMF replaced, or a new last one; nothing else changes; 204, 503 or the caller's code |
| SliceAvailability.PutCodeExact | src/nssf_app/nssf_slice_availability.cpp:40-86 | 204 iff the id is given, not empty and that of a configured set; the caller's code iff it is empty; else 503 |
| SliceAvailability.AmfSetPresent | src/nssf_app/nssf_slice_availability.cpp:23-32 | as written: a copy of the first set with the id |
| SliceAvailability.HandleCreateAsWritten | src/nssf_app/nssf_slice_availability.cpp:34-87 | as written: same replies, no object changed |
| StoreLaws.RunKeepsShape | src/nssf_app/nssf_slice_availability.cpp:49-71 | over every run sets keep order, ids and URIs, AMF ids only get appended, and distinct ids stay distinct |
| StoreLaws.StoredLookup | src/nssf_app/nssf_slice_availability.cpp:54-71 | a PUT changes the data of its own key and of no other |
| StoreLaws.RunRefinesMap | src/nssf_app/nssf_slice_availability.cpp:49-71 | every run of PUTs on the nested lists refines the run of updates on a map from (set id, AMF id) to data |
| StoreLaws.RunLookup | src/nssf_app/nssf_slice_availability.cpp:54-71 | after any run the data of a key is the payload of the last accepted PUT naming it, else what was configured |
| StoreLaws.RunOrder | src/nssf_app/nssf_slice_availability.cpp:66-71 | new AMFs stand behind the configured ones in order of first write |
| StoreLaws.LastPutWins | src/nssf_app/nssf_slice_availability.cpp:56-61 | a PUT overwritten by another to the same key might as well not have happened |
| StoreLaws.PutsCommuteIff | src/nssf_app/nssf_slice_availability.cpp:54-71 | two PUTs commute iff one is refused, the sets differ, the same AMF gets the same data, or one of two AMFs is already listed |
| StoreAnswers.ReadYourWrites | src/nssf_app/nssf_slice_availability.cpp:49-71 | after a PUT, covered requests are served from its set or earlier with its AMF a candidate there; earlier answers and other AMFs are unaffected; an uncovered request loses the AMF when its id is unique |
| StoreAnswers.RunReadYourWrites | src/nssf_app/nssf_slice_availability.cpp:49-71 | at the end of any run in which that AMF does not write to that set again, covered requests are served from its set or earlier with it a candidate there, and uncovered ones do not get it when its id is unique |
| StoreAnswers.MapAgreesIff | src/nssf_app/nssf_slice_selection.cpp:89-97 | for every list: an AMF is a candidate for exactly the requests the map says iff each of its entries is within the data the map holds, and conversely |
| StoreAnswers.SelectionRefinesMap | src/nssf_app/nssf_slice_selection.cpp:88-106 | where the map decides about every AMF, selecting from the nested lists is selecting from the map in set order |
| StoreAnswers.WellFormedDecides | src/nssf_app/nssf_slice_selection.cpp:88-97 | distinct set ids and distinct AMF ids per set are enough for that |
| StoreAnswers.DuplicateIdsEscapeMap | src/nssf_app/nssf_slice_selection.cpp:89-97 | with a repeated id it can fail: two lists with equal look-ups and different answers |
| StoreAnswers.RunAnswers | src/nssf_app/nssf_slice_selection.cpp:88-106 | after any run on any list the answers are those of the map of last writes for exactly the AMFs it decides about; all of them if the configured ids are distinct |
| StoreAnswers.EntryAfterRun | src/nssf_app/nssf_slice_availability.cpp:54-71 | every entry after a run: the first entry of a written AMF holds its last payload, any other is as configured |
| StoreAnswers.RunCandidates | src/nssf_app/nssf_slice_selection.cpp:88-97 | the same on any list: an AMF is a candidate iff its last payload covers the request, or a configured entry does that no PUT replaced |
| StoreAnswers.RunChoosesFirstAble | src/nssf_app/nssf_slice_selection.cpp:88-106 | after any run the chosen set is the first with such an AMF |
| StoreAnswers.AsWrittenMeetsIntentIff | src/nssf_app/nssf_slice_availability.cpp:25-60 | as written, the list after a run is the one meant iff every last accepted payload was configured already |
| FrontEnds.AppRegistration | src/nssf_app/nssf_app.cpp:24-47 | code and result of the verdict; problem details name the unsupported S-NSSAI iff the final code is 403, unless called with 403 |
| FrontEnds.AppPduSession | src/nssf_app/nssf_app.cpp:50-73 | code and result of the handler; problem details never change |
| FrontEnds.NsSelectionGet | src/api-server/impl/NetworkSliceInformationDocumentApiImpl.cpp:41-133 | HTTP/1: PDU session part, then registration part on the same code, problem and result |
| FrontEnds.GetSliceInfoForRegistrationHandler | src/api-server/nssf-http2-server.cpp:238-282 | HTTP/2 registration: served for AMF and NSSF only, else 400 without body |
| FrontEnds.GetSliceInfoForPduSessionHandler | src/api-server/nssf-http2-server.cpp:285-332 | HTTP/2 PDU session: served for AMF and NSSF only, else 400 without body |
| FrontEnds.Http2Dispatch | src/api-server/nssf-http2-server.cpp:99-135 | HTTP/2 runs registration if given, else PDU session, else answers nothing |
| FrontEnds.RepliesAreWhole | src/api-server/impl/NetworkSliceInformationDocumentApiImpl.cpp:95-132 | on either front end 200 bodies are all or nothing, each part present iff it ran and succeeded, the rejected list never; problem details are filled iff 403; no body iff the NF type is refused |
| FrontEnds.ReplyCodeExact | src/api-server/impl/NetworkSliceInformationDocumentApiImpl.cpp:51-125 | the code of every reply of either front end by the fields of the request and the configuration |
| FrontEnds.ResultExact | src/api-server/impl/NetworkSliceInformationDocumentApiImpl.cpp:95-132 | the contents of every result: the first matching NSI entry, and for a grant the matched S-NSSAIs with the first set that covers the request |
| FrontEnds.HomePlmnIsRefused | src/nssf_app/nssf_slice_selection.cpp:243-255 | a request with a home PLMN is answered 503 by either front end that serves it |
| FrontEnds.TaiCountsByListing | src/nssf_app/nssf_slice_selection.cpp:257-264 | a TAI without TAC or a listed one never changes a reply; with an unlisted one the code is 0, 400 or 503 |
| FrontEnds.CodelessReplyIff | src/api-server/impl/NetworkSliceInformationDocumentApiImpl.cpp:51-125 | a reply has a code other than 200, 400, 403 and 503, namely 0, iff the NF type is served and registration is silent with no PDU session part run before it, or HTTP/1 is given neither part |
| FrontEnds.UnknownTaiAnswersZero | src/api-server/nssf-http2-server.cpp:248-270 | an input: a registration from an unknown TAI is answered 0 on both front ends, the PDU session 400 |
| FrontEnds.FrontEndsAgreeIff | src/api-server/nssf-http2-server.cpp:99-135 | the front ends give the same code and body iff: for AMF and NSSF, one parameter, or both with registration not silent and not both parts acceptable; without an NF type, at least one parameter; for other NF types never |
| FrontEnds.FrontEndsDisagree | src/api-server/impl/NetworkSliceInformationDocumentApiImpl.cpp:95-132 | two requests on which they differ |
| Service.Serve | src/nssf_app/nssf_slice_availability.cpp:34-87 | meant: every reply of a run is that of the configuration after the events before it |
| Service.ServeAsWritten | src/nssf_app/nssf_slice_availability.cpp:34-87 | as written: every reply of a run is that of the initial configuration |
| Service.OnlyRegistrationsDiffer | src/nssf_app/nssf_slice_availability.cpp:34-87 | after any run, PUT replies and replies without a registration part are the same in both |
| Service.PutRepliesExact | src/nssf_app/nssf_slice_availability.cpp:40-86 | after any run the sender of a PUT is told success with 204, success with 0 or failure with 503 by the id it gives and the configured ids alone |
| Service.VerdictAfterRun | src/nssf_app/nssf_slice_selection.cpp:276-287 | the verdict on a registration after any run, from the checks on the request and the last writes alone |
| Service.EveryGrantIsCurrent | src/nssf_app/nssf_slice_selection.cpp:82-107 | after any run, on any configuration and for every request either front end serves, a registration past the earlier checks is granted from the first set with an AMF whose current data covers it, with exactly the able AMFs as candidates, else 403 with problem details; any other reply does not depend on the run |
| Service.StoredAmfIsServed | src/nssf_app/nssf_slice_availability.cpp:49-71 | once a PUT is stored and until its AMF overwrites it, requests it covers are granted from its set or an earlier one, whatever else happens |
| Service.AsWrittenServesIff | src/nssf_app/nssf_slice_availability.cpp:25-71 | as written that promise is kept for every covered registration iff each non-empty payload entry is within an entry of an earlier set or of that AMF in the named set already |
| Service.StoredButNotServed | src/nssf_app/nssf_slice_availability.cpp:55-60 | as written it can fail: a PUT answered 204 whose registration is refused, while the meant store grants it |

## Left out

- LargerSupportEarlier: says nothing when no set served the request before, since then any index is an improvement.
- HandleCreateNssaiAvailability: an AMF id with an embedded NUL character, which the source cuts when appending (line 69), is not modelled; HTTP/2 has cut the id at that character before (src/api-server/nssf-http2-server.cpp:162).
- JSON and YAML parsing, the generated data classes and `SST_MAX_STANDARDIZED_VALUE` are not part of this model: requests and nodes arrive as data, and the constant is left open.
- Requests that do not parse, and the HTTP/1 UE-configuration-update parameter, which is answered before the implementation is called.
- The HTTP/2 UE-configuration-update branch: it reads the parameter of registration and is never reached.
- Supported features: read by both front ends and used for logging only.
- Validation of the request in the tracking area: a stub that always succeeds.
- HTTP replies to availability PUTs beyond the code: they differ between the front ends only in whether a 204 carries a body.
- PATCH, DELETE, OPTIONS and all subscription operations: stubs without behaviour.
- Servers, routing, threads, locks, signals, options, logging, headers and content types.
- S-NSSAI ranges and wildcards, restricted and supported S-NSSAIs of a TA, TAI lists and PLMN lists: selection does not read them.
