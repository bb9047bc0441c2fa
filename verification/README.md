# Verification of the nmos-cpp cores

This project models the parts of nmos-cpp that turn structured data into text or bytes and back, rewrite JSON
trees, or keep state over a run, and proves what they promise for every input and every run.

| part | modules | the results a reader is likely to want |
|---|---|---|
| LLDP frames (IEEE Std 802.1AB-2016, sections 8.2 and 8.5) | `Lldp`, `LldpFrame`, `LldpTlvProofs`, `LldpStreamProofs`, `LldpRoundTrip`, `LldpWire` | what a frame is on the wire, byte by byte; decoding undoes encoding whatever pads the frame, and the frames for which it does are exactly the well-formed ones; the order of optional TLVs of different types does not matter |
| LLDP manager and agents | `LldpManager`, `LldpManagerProofs`, `LldpManagerLaws` | an interface transmits and receives exactly as the calls made so far say; a safety invariant of every run: status, live transmit tasks, periods of frames that each end with one shutdown frame, and each frame of the data current when it was sent |
| Parameterised tokens in headers (RFC 7230, sections 3.2.6, 4 and 7) | `HttpTokens`, `HttpTokensGrammar`, `HttpTokensLanguage`, `HttpTokensPrinting`, `HttpAlphabet` | the ten-state parser accepts exactly the renderings of lists, and reads each as its list |
| Directives in headers | `HttpDirectives`, `HttpDirectivesProofs`, `HttpDirectivesGrammar`, `HttpDirectivesLanguage` | the parser accepts exactly the renderings of lists; the lists that survive printing and parsing, exactly |
| Textual lists in headers, router | `HttpHeaders`, `Router`, `RouterProofs` | what the substring search finds, and when it is membership, exactly; what the Allow header lists, exactly |
| JSON merge patch | `JsonMergePatch`, `JsonMergePatchProofs`, `JsonStrictMergeProofs` | the patches on which the permissive merge is RFC 7386's, exactly; when the strict merge succeeds, exactly, what it then makes of every position, and which error it throws otherwise |
| JSON key paths | `JsonPaths`, `JsonPathsProofs`, `JsonReachProofs` | extract finds exactly the values at the positions that follow the path; insert/extract laws; unflatten loses nothing |
| JSON visitors (RFC 8259) | `JsonVisit`, `JsonVisitProofs`, `JsonPrintProofs`, `JsonPrinters`, `JsonReadingProofs`, `JsonLayoutProofs` | the rebuilding visitor rebuilds; a reader of JSON texts reads what was printed as the value it was; the pretty text strips to the compact text, and its lines are indented by their depth |
| Named groups in route patterns | `RegexNames`, `RegexNamesProofs`, `RegexPiecesProofs` | what becomes of a regex piece by piece; which patterns compose under concatenation and nesting, and which recorded numbers are those of a matching engine, exactly |
| Query strings (RFC 3986, sections 2.1 to 2.3) | `QueryCodec`, `QueryCodecProofs`, `QueryWireProofs` | which parameters survive printing and reading back, exactly |
| Ancestry of example sources and flows | `Ancestry` | which numbers the parents are; depth of ancestry is the number of trailing one bits |

`Results`, `Sequences` and `Json` hold what the others share. Code that works step by step in the repository is a
method or a class here, proved equal to a function of its inputs or of its old state; the lemmas are about those
functions. Exceptions are results. JSON objects are lists of fields with unique keys. `dafny verify
dfyconfig.toml` verifies everything.

Where the code differs from what its comments, or the standards they name, suggest, the code is modelled:

- MAC address identifiers of more than six bytes are accepted, as `parse_mac_address` looks at the first six only
  (Development/lldp/lldp.cpp:57-70).
- The `configure_interface` overload without data builds a data unit whose time to live is 0
  (Development/lldp/lldp_manager_impl.cpp:332-357, Development/lldp/lldp.h:270), so what it has sent cannot be told
  from shutdown frames. Nor can data with a time to live of 65536 seconds, as nothing checks it and only its low sixteen
  bits are sent: `ConfiguredLooksLikeShutdown` gives the exact condition, `LongTimeToLiveLooksLikeShutdown` that case.
- `merge_patch` announces that it is not RFC 7386: `PermissiveIsRfcIffFlatArrays` says for which patches it is.
- The scanner of named groups counts parentheses in character classes: `ParenthesisInClassMiscounts` and
  `ParenthesisBehindClassNameMiscounts` are two cases, `NameIsOrdinalIff` says exactly when the number recorded for a name
  is that of its group for std::regex, and `NumbersAreOrdinalsIff` when all numbers recorded for a regex are.
- `make_directives_header` never quotes, while the parser reads quoted values: `DirectivesSurviveIffPrintable` says which
  lists come back, and `ReprintingIffBare` which headers can be printed again.
- `has_header_value` finds values that contain the separator although they are not in the list: `SearchFindsRuns`,
  `SearchFindsUnlisted`, and the exact condition `SearchIsMembershipIff`.
- A field with neither a name nor a text, and a name with an unencoded delimiter, do not survive a query string:
  `RoundTripIff`. As `uri::encode_uri` leaves '&' alone (Development/nmos/api_utils.cpp:25), a parameter named "a&b"
  comes back as two: `SeparatorInNameSplits`, `AmpersandInNameSplits`.
- A strict `merge_patch` that throws leaves what was merged before that, as in `ThrowingMergeChangesTarget`;
  `StrictLeavesUnchangedIff` says exactly when it leaves the target as it was.
- A router mounted at "/" sees the whole path of a request again and not the rest of it, as a route path of "/" counts as
  none (Development/cpprest/api_router.cpp:40-43): `RelativeToMatch` says that this is the only such route path.

## Model

| member | source | states |
|---|---|---|
| LldpFrame.MakeTlv | Development/lldp/lldp_frame.cpp:107-119 | The bytes pushed are a 7-bit type, a 9-bit length and the value. |
| LldpFrame.ParseTlv | Development/lldp/lldp_frame.cpp:123-143 | An accepted TLV takes at least two bytes and no more than there are, so loops over TLVs end. |
| LldpTlvProofs.ParseTlvUndoesEncode | Development/lldp/lldp_frame.cpp:107-143 | A TLV whose type and length fit is read back from the front of any bytes, and the rest is what follows it. |
| LldpTlvProofs.TlvIsCanonical | Development/lldp/lldp_frame.cpp:107-143 | A TLV is read, taking so many bytes, if and only if its type and length fit and those bytes are its encoding. |
| LldpFrame.MakeManagementAddress | Development/lldp/lldp_frame.cpp:337-359 | The imperative encoder produces the encoding of the address. |
| LldpFrame.ReadManagementAddress | Development/lldp/lldp_frame.cpp:372-468 | The index-advancing decoder accepts and decodes as the decoding function does. |
| LldpTlvProofs.ManagementAddressIsCanonical | Development/lldp/lldp_frame.cpp:337-468 | A value decodes to an address if and only if the address is well-formed and the value is its encoding: one value per address. |
| LldpFrame.MakeDataUnit | Development/lldp/lldp_frame.cpp:472-530 | The encoder emits chassis ID, port ID and time to live, then the optional TLVs that are not at their defaults, then the end TLV. |
| LldpFrame.ReadDataUnit | Development/lldp/lldp_frame.cpp:534-655 | The loops over mandatory and optional TLVs, with their counters, decode as the recursive definition does. |
| LldpFrame.MakeFrame | Development/lldp/lldp_frame.cpp:659-673 | The encoder emits both addresses, the EtherType and the data unit. |
| LldpFrame.ReadFrame | Development/lldp/lldp_frame.cpp:677-688 | The decoder reads what the decoding function reads, errors included. |
| LldpStreamProofs.AbsorbAllIsMeaning | Development/lldp/lldp_frame.cpp:578-655 | The loop over optional TLVs accepts a stream if and only if, type by type, its values are acceptable, and then computes a closed form of those values. |
| LldpStreamProofs.OptionalTlvOrderIsIrrelevant | Development/lldp/lldp_frame.cpp:534-655 | Two streams whose values agree type by type are both rejected or decode to the same data unit, whatever precedes and follows. |
| LldpStreamProofs.SwapNeighbours | Development/lldp/lldp_frame.cpp:578-655 | Swapping neighbouring optional TLVs of different types changes neither acceptance nor the data unit. |
| LldpStreamProofs.UnknownTlvIsIgnored | Development/lldp/lldp_frame.cpp:647-653 | Adding or dropping a well-framed TLV of type 9 or above changes neither acceptance nor the data unit. |
| LldpRoundTrip.DataUnitRoundTrip | Development/lldp/lldp_frame.cpp:472-655 | Every well-formed data unit is decoded from its encoding, whatever bytes follow. |
| LldpRoundTrip.FrameRoundTrip | Development/lldp/lldp_frame.cpp:659-688 | Every well-formed frame is decoded from its encoding, padding included. |
| LldpRoundTrip.ParsedFrameIsWellFormed | Development/lldp/lldp_frame.cpp:534-688 | Whatever bytes are accepted, the decoded frame is well-formed. |
| LldpRoundTrip.FrameSurvivesIffWellFormed | Development/lldp/lldp_frame.cpp:472-688 | A frame survives encoding and decoding if and only if it is well-formed. |
| LldpRoundTrip.ReencodingIsNormalForm | Development/lldp/lldp_frame.cpp:659-688 | Encoding an accepted frame again, with any padding, decodes to the same frame as the accepted bytes. |
| LldpRoundTrip.EncodedAsShutdownIff | Development/lldp/lldp_frame.cpp:472-530 | Any data unit is encoded like the shutdown data unit of its identifiers if and only if its options are at their defaults and its time to live is a multiple of 65536. |
| LldpWire.FrameOnWire | Development/lldp/lldp_frame.cpp:472-673 | Every well-formed frame is laid out, byte by byte, as the standard numbers it: addresses, 0x88CC, types and lengths, a TLV for each part that is not at its default, and two zero bytes. |
| LldpWire.HeaderOnWire | Development/lldp/lldp_frame.cpp:31-44 | With six-byte addresses, whatever the data unit, the addresses take bytes 0 to 11 and 0x88CC the two bytes behind them. |
| LldpWire.AcceptedHeader | Development/lldp/lldp_frame.cpp:47-78 | Whatever is accepted has at least 16 bytes, 0x88CC as its EtherType and a chassis ID first, and yields its addresses. |
| LldpWire.EndMayBeMissing | Development/lldp/lldp_frame.cpp:578-655 | A data unit that stops in front of its end TLV is read all the same. |
| LldpWire.NetworkAddressAccepted | Development/lldp/lldp.cpp:69-170 | A network address is accepted if and only if it is of family 1 with 4 bytes, 2 with 16, 6 with 6, or 16 with one or more. |
| LldpWire.ChassisIdAccepted | Development/lldp/lldp_frame.cpp:156-190 | A chassis ID is accepted if and only if its subtype is one of 0 to 7 and its MAC or network address is one. |
| LldpWire.PortIdAccepted | Development/lldp/lldp_frame.cpp:204-238 | The same of a port ID, whose subtypes for addresses are others. |
| LldpWire.TimeToLiveAccepted | Development/lldp/lldp_frame.cpp:246-257 | A time to live is read from the first two bytes, the higher first, if there are as many, whatever follows. |
| LldpWire.SystemCapabilitiesAccepted | Development/lldp/lldp_frame.cpp:324-334 | System capabilities are read from the first four bytes if there are as many. |
| LldpWire.ManagementAddressAccepted | Development/lldp/lldp_frame.cpp:372-468 | A management address is accepted if and only if its address is 5, 17, 7 or 2 to 32 bytes long by its family, its number is zero if it is unknown, and its object identifier takes exactly the rest. |
| LldpManager.LldpAgent.SetStatus | Development/lldp/lldp_manager_impl.cpp:195-199 | The configured flags are those of the status and nothing else changes. |
| LldpManager.LldpAgent.SetData | Development/lldp/lldp_manager_impl.cpp:201-204 | The data to transmit is replaced and nothing else changes. |
| LldpManager.LldpAgent.ActivateConfiguration | Development/lldp/lldp_manager_impl.cpp:207-214 | The whole new state of an agent brought to its configuration, including what goes out. |
| LldpManager.LldpAgent.StartTransmitting | Development/lldp/lldp_manager_impl.cpp:217-245 | A live task is cancelled only when transmitting; one frame goes out and one new task lives. |
| LldpManager.LldpAgent.StopTransmitting | Development/lldp/lldp_manager_impl.cpp:247-257 | The task is cancelled and a shutdown frame with the current identifiers goes out. |
| LldpManager.LldpAgent.FireTimer | Development/lldp/lldp_manager_impl.cpp:234-242 | A tick of a live task sends that task's frame again and changes nothing else. |
| LldpManager.LldpManager.Open | Development/lldp/lldp_manager_impl.cpp:299-313 | Opening a closed manager activates every agent; opening an open one does nothing. |
| LldpManager.LldpManager.Close | Development/lldp/lldp_manager_impl.cpp:315-330 | Closing an open manager makes every agent unmanaged and activates that; closing a closed one does nothing. |
| LldpManager.LldpManager.ConfigureInterface | Development/lldp/lldp_manager_impl.cpp:359-402 | An agent is found or added, reconfigured, and activated only when open; other agents are untouched, and a failure changes nothing. |
| LldpManagerProofs.RunsAreSafe | Development/lldp/lldp_manager_impl.cpp:188-402 | In every state of every run: one live transmit task exactly while transmitting, whose frame is the data last configured; agents as configured when open, inactive when closed; each wire is whole periods of one or more configured frames and one shutdown frame, with nothing between periods; every frame has its interface's addresses, a configured frame carries a data unit the run gave that agent, and a shutdown frame the identifiers of such a unit with time to live 0 and nothing else. |
| LldpManagerProofs.StepIsSafe | Development/lldp/lldp_manager_impl.cpp:207-402 | Opening, closing, configuring and ticking each keep that invariant, with the data unit that a successful configuration adds to those given. |
| LldpManagerProofs.StepSendsCurrent | Development/lldp/lldp_manager_impl.cpp:207-402 | What a step makes an agent send is of the data the agent has after the step. |
| LldpManagerProofs.FramesAreCurrent | Development/lldp/lldp_manager_impl.cpp:188-402 | In every run, every frame on a wire was sent by some step of the run, and carries the data unit that was configured last up to that step, or, if it ends a period, the identifiers of that unit. |
| LldpManagerProofs.ReopeningIsSilent | Development/lldp/lldp_manager_impl.cpp:299-330 | Closing ends each period with one shutdown frame; reopening sends nothing, as the configured status is forgotten. |
| LldpManagerProofs.ShutdownFrameDecodes | Development/lldp/lldp_manager_impl.cpp:247-257 | A receiver reads a shutdown frame as time to live 0 with the identifiers of the data configured last. |
| LldpManagerProofs.WireDecodes | Development/lldp/lldp_manager_impl.cpp:217-257 | In every run with well-formed data and six-byte addresses, each frame ever sent is read by a receiver as that frame, and each shutdown frame as time to live 0. |
| LldpManagerProofs.ConfiguredLooksLikeShutdown | Development/lldp/lldp_manager_impl.cpp:217-257 | A configured frame has the bytes of a shutdown frame if and only if its data has no options and a time to live whose low sixteen bits, the only ones sent, are zero; whatever the data and the addresses. |
| LldpManagerProofs.LongTimeToLiveLooksLikeShutdown | Development/lldp/lldp_frame.cpp:241-244 | Data with a time to live of 65536 seconds is not that of a shutdown frame, and is sent as the bytes of one. |
| LldpManagerLaws.ActiveAsAsked | Development/lldp/lldp_manager_impl.cpp:195-402 | In every run, an interface transmits, and receives, if and only if the manager was opened and not closed since, and the status asked for last, since it was closed, says so. |
| LldpManagerLaws.OpenAsLeft | Development/lldp/lldp_manager_impl.cpp:299-330 | The manager is open if and only if it was opened last and not closed since. |
| LldpManagerLaws.AgentsAsFound | Development/lldp/lldp_manager_impl.cpp:359-389 | An interface has an agent if and only if some configuration of it found its device. |
| LldpManagerLaws.ConfiguringSends | Development/lldp/lldp_manager_impl.cpp:359-402 | A successful configuration of an open manager sends exactly one frame of its data at once, if its status transmits, even when the interface was transmitting already; otherwise the frame that ends the period, if it was; and nothing on other interfaces or while closed. |
| LldpManagerLaws.OpeningAndClosingSend | Development/lldp/lldp_manager_impl.cpp:299-330 | Opening sends one frame on each interface configured to transmit, and closing the frame that ends the period on each that transmits. |
| LldpManagerLaws.TickingSends | Development/lldp/lldp_manager_impl.cpp:234-242 | In every run, a timer has something to send exactly while the interface transmits, and sends the frame of its data. |
| HttpTokens.MakeHeader | Development/cpprest/http_utils.cpp:203-236 | The loops print values, parameters, quotes and escapes as the recursive definition of the header's text says. |
| HttpTokens.Parser.Step | Development/cpprest/http_utils.cpp:255-336 | Every transition keeps the parser's invariant: names stored are tokens, and the value and parameter a state extends are there. |
| HttpTokens.ParseHeader | Development/cpprest/http_utils.cpp:238-346 | The loop with its state, name and growing result computes what the state machine does, errors included. |
| HttpTokens.Parse | Development/cpprest/http_utils.cpp:238-346 | Every accepted header yields a list all of whose names are tokens. |
| HttpTokensGrammar.ParseRendering | Development/cpprest/http_utils.cpp:238-346 | Every rendering of a list, with any blanks at each separator, any empty elements and any quoting, reads as that list. |
| HttpTokensLanguage.AcceptedIffRendering | Development/cpprest/http_utils.cpp:238-346 | A header is accepted as a list if and only if it is a rendering of that list: the parser's language is the grammar. |
| HttpTokensPrinting.PrintedIsRendering | Development/cpprest/http_utils.cpp:203-236 | What the printer writes for a list with token names is one of the list's renderings. |
| HttpTokensPrinting.HeaderSurvivesIffWellFormed | Development/cpprest/http_utils.cpp:203-346 | A list survives printing and parsing if and only if its names are tokens; parameter values may be anything. |
| HttpTokensPrinting.ReprintingIsNormalForm | Development/cpprest/http_utils.cpp:203-346 | Printing what was parsed parses to the same list as the original header. |
| HttpDirectives.MakeDirectives | Development/cpprest/http_utils.cpp:348-362 | The loop prints each directive with its value, if it has one, behind separators. |
| HttpDirectives.ParseDirectives | Development/cpprest/http_utils.cpp:364-451 | The loop with its eight states, name and growing result computes what the state machine does, errors included. |
| HttpDirectives.ReadDirectives | Development/cpprest/http_utils.cpp:364-451 | Every accepted header yields a list all of whose names are tokens. |
| HttpDirectivesGrammar.ReadDirectivesRendering | Development/cpprest/http_utils.cpp:364-451 | Every rendering of a list of directives, with any blanks at each separator, any quoting, and a trailing semicolon or none, reads as that list. |
| HttpDirectivesLanguage.AcceptedIffRendering | Development/cpprest/http_utils.cpp:364-451 | A header is accepted as a list if and only if it is a rendering of that list: the parser's language is the grammar. |
| HttpDirectivesProofs.AcceptedLength | Development/cpprest/http_utils.cpp:364-451 | A header read as a list has a character for each of its names, values and separators, and two more for each value that is not a token. |
| HttpDirectivesProofs.DirectivesSurviveIffPrintable | Development/cpprest/http_utils.cpp:348-451 | A list survives printing and parsing if and only if its names are tokens and its values are empty or tokens, as the printer never quotes. |
| HttpDirectivesProofs.ReprintingIffBare | Development/cpprest/http_utils.cpp:348-451 | Printing what was parsed reads as the same list if and only if none of its values needed quotes. |
| HttpAlphabet.TcharIsVisible | Development/cpprest/http_utils.cpp:182-193 | The characters of tokens are the visible US-ASCII characters that are no delimiters. |
| HttpAlphabet.SingleCharacterHeader | Development/cpprest/http_utils.cpp:238-346 | A header of one character is a name if and only if it is such a character, nothing for a comma, a space or a tab, and an error otherwise. |
| HttpAlphabet.SingleCharacterDirectives | Development/cpprest/http_utils.cpp:364-451 | The same of directives, without the comma. |
| HttpAlphabet.PrintedBareIffVisible | Development/cpprest/http_utils.cpp:216-233 | A parameter value is printed without quotes if and only if it is not empty and has such characters only. |
| HttpAlphabet.HeaderIsWritten | Development/cpprest/http_utils.cpp:203-236 | With names that are not empty, the text of a header is its values with a comma and a space between them, each of these its name and parameters with semicolons between them; in quotes, quotes and backslashes, and nothing else, have a backslash in front. |
| HttpAlphabet.DirectivesAreWritten | Development/cpprest/http_utils.cpp:348-362 | The text of directives has semicolons between them, and an equals sign in front of each value that is not empty. |
| HttpAlphabet.HeaderSurvivesIffVisible | Development/cpprest/http_utils.cpp:182-346 | A list survives printing and parsing if and only if its names are not empty and have such characters only. |
| HttpAlphabet.DirectivesSurviveIffVisible | Development/cpprest/http_utils.cpp:182-451 | A list of directives does if and only if this holds of its names and of its values that are not empty. |
| HttpHeaders.HttpHeaders.Search | Development/cpprest/http_utils.cpp:61-77 | The search of the padded header text finds the padded value if and only if it occurs at some position. |
| HttpHeaders.HttpHeaders.AddHeaderValue | Development/cpprest/http_utils.cpp:79-90 | A value is added exactly when the search does not find it, and the result says which. |
| HttpHeaders.ValuesAreParts | Development/cpprest/http_utils.cpp:68-75 | Any header text is its parts with separators between them, and no part holds a separator. |
| HttpHeaders.HeaderIsJoined | Development/cpprest/http_utils.cpp:68-75 | Any header text is its values joined by a comma and a space. |
| HttpHeaders.SearchFindsRuns | Development/cpprest/http_utils.cpp:61-77 | For any header and any value, the search succeeds if and only if the value's parts occur one after another among the header's parts. |
| HttpHeaders.SearchIsMembership | Development/cpprest/http_utils.cpp:61-77 | For a value that holds no separator, the search is membership of the list. |
| HttpHeaders.SearchFindsUnlisted | Development/cpprest/http_utils.cpp:68-75 | Every value that holds the separator is found in the header that is just that value, although no value of the list is equal to it. |
| HttpHeaders.SearchIsMembershipIff | Development/cpprest/http_utils.cpp:61-77 | The search is membership of the list, whatever the headers, if and only if the value holds no separator. |
| HttpHeaders.AddValueLists | Development/cpprest/http_utils.cpp:79-90 | Adding a non-empty value without separators appends it to the list unless it is there, and leaves other headers alone. |
| Router.MergeParameters | Development/cpprest/api_router.cpp:231-236 | All parameters are there, and a new one replaces an existing one of the same name. |
| Router.HttpResponse.HandleMethodNotAllowed | Development/cpprest/api_router.cpp:166-179 | An unset status becomes 405, a set one stays, and the method is added to Allow. |
| Router.ApiRouter.CallHandler | Development/cpprest/api_router.cpp:134-164 | An exception of the handler goes to the exception handler with the response as left, if there is one. |
| Router.ApiRouter.Run | Development/cpprest/api_router.cpp:95-132 | The loop resumed by continuations is one left-to-right scan of the routes, run for run and change for change. |
| Router.ApiRouter.Listen | Development/cpprest/api_router.cpp:63-88 | The router replies itself exactly when the scan was to continue, with 404 if no status is set by then. |
| RouterProofs.ScanAppend | Development/cpprest/api_router.cpp:95-132 | Routes added later are tried on what the earlier ones leave, and only if all of those let the matching continue. |
| RouterProofs.LastTriedDecides | Development/cpprest/api_router.cpp:107-123 | A scan ends early exactly at a route serving path and method, whose handler is the first not to let it continue. |
| RouterProofs.AllowListsMissedMethods | Development/cpprest/api_router.cpp:95-179 | If handlers leave Allow alone, it lists what it did before and then, in order and once each, the methods of the routes tried that match the path only. |
| RouterProofs.AllowIsExactlyMissedMethods | Development/cpprest/api_router.cpp:95-179 | A method is allowed if and only if a route tried matches the path and has it, not being served; none is listed twice. |
| RouterProofs.MissesKeepStatus | Development/cpprest/api_router.cpp:166-175 | Routes that only match the path set 405 on a response without status and never replace a status. |
| RouterProofs.UnservedRequest | Development/cpprest/api_router.cpp:63-179 | A request no route serves is answered 405 with the matching routes' methods in Allow if some path matches, and 404 otherwise. |
| RouterProofs.AnswersUnserved | Development/cpprest/api_router.cpp:63-179 | To a request without status, when no matching route is for its method, the answer is 405 with the methods of the matching routes, once each and joined by a comma and a space, in the Allow header; or 404 if no route matches. |
| RouterProofs.FirstMatchIsCalled | Development/cpprest/api_router.cpp:107-164 | The handler of the first route that matches, if it is for the method or for all, gets the route path with the text matched and the parameters; what it throws goes to the exception handler; the routes behind are tried exactly if one of them says so. |
| RouterProofs.RelativeToMatch | Development/cpprest/api_router.cpp:37-58 | Behind a prefix that has matched, the path relative to the route path is the rest, if and only if that route path is not "/". |
| RouterProofs.MountedSeesRest | Development/cpprest/api_router.cpp:37-132 | A router mounted at a matched prefix scans its routes for exactly the rest of the path, with that prefix as route path and the parameters matched so far. |
| JsonMergePatch.MergePatch | Development/cpprest/json_utils.cpp:299-379 | The in-place merge computes the recursive definition, permissive or strict, exceptions included, and a strict merge that throws leaves the target merged up to the part that does not fit. |
| JsonMergePatch.MergeArrays | Development/cpprest/json_utils.cpp:306-342 | The two iterators, with erasure of elements patched by null, compute the element-wise merge. |
| JsonMergePatch.AppendMissing | Development/cpprest/json_utils.cpp:335-342 | Patch elements beyond the target's are appended merged into null, except nulls. |
| JsonMergePatch.MergeObjects | Development/cpprest/json_utils.cpp:344-368 | The loop over the patch's fields computes the field-wise merge. |
| JsonMergePatchProofs.MergeFieldsAt | Development/cpprest/json_utils.cpp:344-368 | Key by key: absent from the patch, unchanged; null in a permissive patch, absent; otherwise the merge of both values. |
| JsonMergePatchProofs.PermissiveSucceeds | Development/cpprest/json_utils.cpp:299-379 | A permissive merge never throws. |
| JsonMergePatchProofs.PermissiveArray | Development/cpprest/json_utils.cpp:306-342 | The result of an array patch has one element per non-null patch element, the merge of the element at the same patch index, or null, with it. |
| JsonMergePatchProofs.PermissiveIsRfc | Development/cpprest/json_utils.cpp:299-379 | On patches whose arrays hold neither nulls nor objects the permissive merge is MergePatch of section 2 of RFC 7386. |
| JsonMergePatchProofs.NotFlatDisagrees | Development/cpprest/json_utils.cpp:299-379 | For every other patch there is a target on which the two differ. |
| JsonMergePatchProofs.PermissiveIsRfcIffFlatArrays | Development/cpprest/json_utils.cpp:299-379 | The exact condition on the patch for agreement with RFC 7386 on all targets. |
| JsonMergePatchProofs.StrictSucceedsIffFits | Development/cpprest/json_utils.cpp:299-379 | A strict merge succeeds if and only if the patch asks for existing keys, equal array lengths and matching kinds at every depth. |
| JsonMergePatchProofs.MergeKeepsWellFormed | Development/cpprest/json_utils.cpp:299-379 | Either form keeps keys unique at every depth, whatever the patch, so that its result can be merged into again. |
| JsonMergePatchProofs.LeftOfSuccess | Development/cpprest/json_utils.cpp:299-379 | What a strict merge leaves in the target is its result, when it does not throw. |
| JsonMergePatchProofs.StrictLeavesShape | Development/cpprest/json_utils.cpp:299-379 | Whether or not it throws, a strict merge leaves keys, array lengths and composites at every depth as they were. |
| JsonMergePatchProofs.StrictLeavesUnchangedIff | Development/cpprest/json_utils.cpp:299-379 | Whether or not it throws, a strict merge leaves the target as it was if and only if each field and element of the patch, up to and including the first that does not fit, asks for what is there already, or meets what refuses it. |
| JsonMergePatchProofs.ThrowingMergeChangesTarget | Development/cpprest/json_utils.cpp:354-378 | A strict merge of two fields, the second of which does not fit, throws with the first merged. |
| JsonMergePatchProofs.StrictKeepsShape | Development/cpprest/json_utils.cpp:299-379 | A strict merge that succeeds keeps keys, array lengths and composites at every depth. |
| JsonMergePatchProofs.StrictIsIdempotent | Development/cpprest/json_utils.cpp:299-379 | A strict merge that succeeds succeeds again and changes nothing more. |
| JsonMergePatchProofs.StrictIsPermissiveIffNoInnerNulls | Development/cpprest/json_utils.cpp:299-379 | Where the strict merge succeeds it equals the permissive one if and only if no field or element of the patch is null. |
| JsonStrictMergeProofs.StrictMergedAt | Development/cpprest/json_utils.cpp:299-379 | Where a strict merge succeeds, its result has what the patch has at every position of one of its scalars, what the target had at every position the patch does not have, and no other positions than the target. |
| JsonStrictMergeProofs.StrictThrowsIff | Development/cpprest/json_utils.cpp:299-379 | A strict merge throws an error if and only if it is that of the first field or element, in the order of the patch, that does not fit: inconsistent type, inconsistent array size, or unexpected field. |
| JsonPaths.SplitJoin | Development/cpprest/json_utils.cpp:46-52 | A dotted key is its parts joined with dots, and no part holds a dot. |
| JsonPaths.InsertField | Development/cpprest/json_utils.cpp:56-81 | The walk down the path computes the recursive insertion and its result flag. |
| JsonPaths.Descend | Development/cpprest/json_utils.cpp:97-179 | Replacing one object of the list by those its field leads to, in order, in front of the ones still to come. |
| JsonPaths.MapLevel | Development/cpprest/json_utils.cpp:97-179 | One pass of the list loop maps every object to its children, keeping order, and notes whether an array was met. |
| JsonPaths.MergeLeaves | Development/cpprest/json_utils.cpp:97-179 | The last pass collects the leaves, splicing arrays into an array result. |
| JsonPaths.ExtractFields | Development/cpprest/json_utils.cpp:97-179 | The list surgery equals an order-preserving recursive flat-map over the key path, with an array result exactly when an array was met before the leaf or the single leaf is one. |
| JsonPaths.CollectLevel | Development/cpprest/json_utils.cpp:97-179 | Going one level down for all objects at once finds the same values in the same order. |
| JsonPaths.MeetsArrayLevel | Development/cpprest/json_utils.cpp:97-179 | As long as no array was met there is at most one object, so noting arrays level by level is noting them on the path. |
| JsonReachProofs.ExtractReaches | Development/cpprest/json_utils.cpp:97-179 | What is extracted are the values at exactly the positions that have the keys of the path in order, with at most one index between two keys, in document order; the result is an array if and only if one of the keys but the last leads through objects to an array, and arrays among the values are then spliced; without such an array there is one value at most. |
| JsonReachProofs.WalksAreAll | Development/cpprest/json_utils.cpp:97-179 | The recursive list of positions holds exactly those that follow the path. |
| JsonReachProofs.WalksInOrder | Development/cpprest/json_utils.cpp:97-179 | Of any two of these positions the former has the smaller index where they part. |
| JsonReachProofs.MeetsArrayIff | Development/cpprest/json_utils.cpp:117-132 | An array is met if and only if the keys of some proper prefix of the path lead to one through objects. |
| JsonPaths.UnflattenParams | Development/cpprest/json_utils.cpp:225-234 | The loop inserts the parameters one after the other. |
| JsonPathsProofs.FailedInsertChangesNothing | Development/cpprest/json_utils.cpp:56-81 | A failed insertion leaves the object exactly as it was, with no sub-objects created. |
| JsonPathsProofs.InsertSucceedsIffVacant | Development/cpprest/json_utils.cpp:56-81 | An insertion succeeds if and only if the path leads through objects, nulls or nothing to null or nothing. |
| JsonPathsProofs.ExtractInserted | Development/cpprest/json_utils.cpp:56-179 | What was inserted is what is extracted at the same path. |
| JsonPathsProofs.ExtractUnaffected | Development/cpprest/json_utils.cpp:56-179 | An insertion changes no extraction at a path that neither extends it nor is extended by it. |
| JsonPathsProofs.InsertKeepsVacant | Development/cpprest/json_utils.cpp:56-81 | An insertion does not stop a later one at such a path. |
| JsonPathsProofs.InsertKeepsWellFormed | Development/cpprest/json_utils.cpp:56-81 | An insertion keeps keys unique at every depth, whether it succeeds or fails. |
| JsonPathsProofs.UnflattenIsWellFormed | Development/cpprest/json_utils.cpp:225-234 | Whatever the dotted keys, repeated ones included, the unflattened object has unique keys at every depth. |
| JsonPathsProofs.UnflattenRecovers | Development/cpprest/json_utils.cpp:225-234 | Of any prefix-free set of dotted keys every parameter is extracted again, and at paths unrelated to all of them nothing is. |
| JsonVisit.Visit | Development/cpprest/json_visit.h:24-117 | Visiting a value delivers exactly the sequence of callbacks defined for it. |
| JsonVisit.VisitArray | Development/cpprest/json_visit.h:93-117 | The iterator loop delivers elements in order with separators between them. |
| JsonVisit.VisitObject | Development/cpprest/json_visit.h:59-85 | The iterator loop delivers fields in order with separators between them. |
| JsonVisit.EscapeCharacters | Development/cpprest/json_escape.cpp:35-89 | The loop appends, character by character, the escaped text. |
| JsonPrinters.OstreamVisitor.Receive | Development/cpprest/json_visit.h:264-352 | Each callback appends its text to the stream; a whole object or array is visited in turn, which appends its compact text. |
| JsonPrinters.PrettyVisitor.PutRepeated | Development/cpprest/json_visit.h:349 | The counting loop writes the character that many times. |
| JsonPrinters.PrettyVisitor.Receive | Development/cpprest/json_visit.h:373-422 | Each callback makes its change of stream, depth and emptiness, and no other; a whole object or array is visited in turn, which appends its pretty text at the current depth. |
| JsonPrinters.CallbacksBalance | Development/cpprest/json_visit.h:24-117 | The callbacks of a visit never leave an object or array that they have not entered, and end at the depth they began at. |
| JsonVisit.AssigningVisitor.Receive | Development/cpprest/json_visit.h:133-175 | Each callback makes its change of target, cursor stack and name flag, and no other. |
| JsonVisitProofs.AssignBelow | Development/cpprest/json_visit.h:171-174 | Assigning one step further down is assigning the parent with the child replaced. |
| JsonVisitProofs.Rebuilds | Development/cpprest/json_visit.h:133-175 | From any position, however deep each object and array is taken apart, the callbacks leave the value there, the cursor stack as it was and no name awaited. |
| JsonVisitProofs.RebuildsFromScratch | Development/cpprest/json_visit.h:133-175 | A fresh visitor's target becomes the delivered value, whatever it was. |
| JsonVisitProofs.TakenApartDelivers | Development/cpprest/json_visit.h:59-117 | The callbacks of a visit are one way of delivering the visited value. |
| JsonVisitProofs.VisitingCopies | Development/cpprest/json_visit.h:59-175 | Feeding a visit to the assigning visitor copies the value. |
| JsonPrintProofs.OstreamWritesCompact | Development/cpprest/json_visit.h:264-352 | Visiting any value appends its compact text. |
| JsonPrintProofs.PrettyWritesPretty | Development/cpprest/json_visit.h:373-422 | Visiting any value, at any depth and indent, appends its pretty text and restores the depth. |
| JsonPrintProofs.EscapedCharStaysInside | Development/cpprest/json_escape.cpp:40-86 | Whatever the character, its escaped text leaves no string literal it is written in. |
| JsonPrintProofs.PrettyStripsToCompact | Development/cpprest/json_visit.h:264-422 | Without whitespace outside strings, the pretty text of any value is its compact text, for every indent and depth. |
| JsonPrintProofs.PrettyVisitorStripsToOstreamVisitor | Development/cpprest/json_visit.h:264-422 | The same of what the two visitors write for the same callbacks, with the depth back at 0. |
| JsonPrintProofs.CompactPrefix | Development/cpprest/json_visit.h:264-352 | A compact text determines its value and where it ends. |
| JsonPrintProofs.CompactIsInjective | Development/cpprest/json_visit.h:264-352 | Different values have different compact texts. |
| JsonPrintProofs.PrettyIsInjective | Development/cpprest/json_visit.h:373-422 | Different values have different pretty texts, even at different indents. |
| JsonReadingProofs.ReadsEscaped | Development/cpprest/json_escape.cpp:35-89 | A reader of string literals (section 7 of RFC 8259) reads the escaped text of any string, and a quote behind it, as that string. |
| JsonReadingProofs.ReadCompact | Development/cpprest/json_visit.h:264-352 | A reader of JSON texts without whitespace (sections 3 to 7 of RFC 8259) reads the compact text of any value as that value. |
| JsonReadingProofs.ReadPretty | Development/cpprest/json_visit.h:373-422 | So it does the pretty text, at any indent, without the whitespace outside strings. |
| JsonLayoutProofs.LaidOut | Development/cpprest/json_visit.h:373-422 | The pretty text is the lines of the value, each indented by its depth: a line for each bracket of a composite that is not empty, between them those of its elements or fields one level deeper, with commas at the ends of all but the last. |
| JsonLayoutProofs.LinesAreLines | Development/cpprest/json_visit.h:373-422 | None of these lines is empty, starts with a space or holds a line feed, so they and their depths can be told from the text. |
| RegexNames.ParseRegex | Development/cpprest/regex_utils.h:57-168 | The six-state loop computes the run of the scanner: stripped text and numbers of names. |
| RegexNamesProofs.ConcatenationComposes | Development/cpprest/regex_utils.h:57-168 | If the first regex ends in the normal state, texts concatenate and the second's numbers move up by the first's groups. |
| RegexNamesProofs.ComposesIffEndsNormally | Development/cpprest/regex_utils.h:57-168 | A regex composes with every other if and only if it ends in the normal state. |
| RegexNamesProofs.NestingComposes | Development/cpprest/regex_utils.h:46-168 | A wrapped regex keeps its text in parentheses, the new name has number 1 and the others move up by one; the whole ends normally again. |
| RegexNamesProofs.NestsIff | Development/cpprest/regex_utils.h:46-168 | A name and a regex nest in this way if and only if the name holds no '>' and the regex does not end inside an extension or a name specifier. |
| RegexNamesProofs.CountExceedsByStrays | Development/cpprest/regex_utils.h:66-163 | For every regex that a matching engine does not reject, the scanner's count exceeds the groups the engine finds in the text by exactly the strays: one more for a parenthesis in a class or behind a control escape, or a group hidden behind a specifier; one less for what is taken back in a class, or skipped as part of an unknown extension. |
| RegexNamesProofs.NameIsOrdinalIff | Development/cpprest/regex_utils.h:111-147 | The number recorded for a name is the ordinal of its group among the capturing ones of the stripped text if and only if the group is one for the engine, the strays in front of it cancel out, and no question mark follows the specifier; otherwise it is off by exactly the strays. |
| RegexNamesProofs.RecordedIffDefined | Development/cpprest/regex_utils.h:57-168 | The names recorded are exactly those with a specifier, read as one, behind which the name is not defined again. |
| RegexNamesProofs.DefinitionIsUnique | Development/cpprest/regex_utils.h:57-168 | A regex has at most one such definition of a name. |
| RegexNamesProofs.NumbersAreOrdinalsIff | Development/cpprest/regex_utils.h:57-168 | All numbers recorded for a regex are the ordinals of their groups if and only if the scanner is in step with the engine at the last definition of every name. |
| RegexNamesProofs.ParenthesisInClassMiscounts | Development/cpprest/regex_utils.h:75-86 | A parenthesis in a character class is counted, so the named group behind it gets number 2 where an engine finds it to be the first. |
| RegexNamesProofs.ParenthesisBehindClassNameMiscounts | Development/cpprest/regex_utils.h:75-86 | So is one in a class behind the name of a named class, whatever that name, as the bracket that ends the name does not end the class. |
| RegexPiecesProofs.PiecesAreRead | Development/cpprest/regex_utils.h:57-168 | Written in pieces (single and escaped characters, plain and named groups, assertions and groups that do not capture), a regex keeps every piece, named groups as plain ones, and each name gets the ordinal of its group among all groups that are plain or named. |
| RegexPiecesProofs.WrittenInPieces | Development/cpprest/regex_utils.h:57-168 | Every regex that ends between two pieces and has no other extension is written in pieces. |
| QueryCodec.EncodeText | Development/nmos/api_utils.cpp:931-956 | The loop writes unsafe characters as triplets and the others as they are, in order. |
| QueryCodec.Parameters.EncodeElements | Development/nmos/api_utils.cpp:45-56 | Every string element is replaced by its encoding, in place, and nothing else changes. |
| QueryCodec.Parameters.DecodeElements | Development/nmos/api_utils.cpp:33-42 | Every string element is decoded in place; or the first that cannot be is reported, those in front of it are decoded, and it and those behind it are as they were. |
| QueryCodec.QueryFromValue | Development/cpprest/json_utils.cpp:208-222 | The loop writes the terms of the fields in order with separators between them. |
| QueryCodec.NextTerm | Development/cpprest/json_utils.cpp:190-202 | The positions found by the two searches delimit the next term's name and value and the start of the one after. |
| QueryCodec.ValueFromQuery | Development/cpprest/json_utils.cpp:184-206 | The loop over positions reads the terms one after the other, until a name cannot be decoded. |
| QueryCodecProofs.DecodingUndoesEncodingIff | Development/nmos/api_utils.cpp:931-956 | Percent-decoding undoes encoding for all byte strings if and only if the percent sign is among the unsafe characters. |
| QueryCodecProofs.EncodedValueAlphabet | Development/nmos/api_utils.cpp:914-929 | An encoded value consists of letters, digits, percent signs and the safe characters, so it holds no delimiter of a query. |
| QueryCodecProofs.ReadQuery | Development/cpprest/json_utils.cpp:184-222 | Reading a printed query stores the printed fields, one after the other. |
| QueryCodecProofs.QueryRoundTrip | Development/nmos/api_utils.cpp:33-56 | Encoded, printed, read and decoded, parameters keep order, names and the texts of their values; only a field with neither name nor text is lost. |
| QueryCodecProofs.RoundTripHasCleanKeys | Development/cpprest/json_utils.cpp:184-222 | Whatever names go in, no name that comes back holds a delimiter left unencoded. |
| QueryCodecProofs.RoundTripIff | Development/cpprest/json_utils.cpp:184-222 | String parameters with distinct names come back as they were if and only if the delimiters in their names are encoded and no field is blank. |
| QueryCodecProofs.SeparatorInNameSplits | Development/cpprest/json_utils.cpp:184-222 | A parameter whose name holds a separator that is left as it is comes back as two: the first half of the name with an empty text, the second half with the text. |
| QueryCodecProofs.AmpersandInNameSplits | Development/nmos/api_utils.cpp:24-27 | With the delimiters left alone as by `uri::encode_uri`, the name "a&b" is such a name. |
| QueryWireProofs.KeptInValues | Development/nmos/api_utils.cpp:913-929 | In a value, exactly the unreserved characters, the sub-delimiters but those with a meaning in queries, and four more are not encoded. |
| QueryWireProofs.EncodedAsTriplet | Development/nmos/api_utils.cpp:931-956 | An octet is encoded as a percent sign and its two digits, the higher first, in upper case. |
| QueryWireProofs.TripletRead | Development/cpprest/json_utils.cpp:184-206 | A percent sign and two digits of either case are read as the octet they denote. |
| QueryWireProofs.QueryIsJoined | Development/cpprest/json_utils.cpp:208-222 | A query is its terms joined by ampersands: a name, an equals sign, and the text of a value, which only a string has as it is. |
| QueryWireProofs.TermRead | Development/cpprest/json_utils.cpp:184-206 | A term up to an ampersand or a semicolon stores what is behind its first equals sign under its decoded name. |
| QueryWireProofs.NameAloneRead | Development/cpprest/json_utils.cpp:184-206 | A term without an equals sign stores an empty text. |
| Ancestry.Resource.InsertParents | Development/nmos-cpp-node/node_implementation.cpp:2545-2559 | The two loops append the identifiers of exactly the parents, in order. |
| Ancestry.BitOfClear | Development/nmos-cpp-node/node_implementation.cpp:2552-2555 | Clearing a bit clears that bit and no other. |
| Ancestry.SameBits | Development/nmos-cpp-node/node_implementation.cpp:2550-2558 | Bits determine the number, so the parents' bits determine the parents. |
| Ancestry.ParentBits | Development/nmos-cpp-node/node_implementation.cpp:2552-2558 | The k-th parent lacks the last of the trailing ones and the first k bits of the next run of ones, and has all other bits of the index. |
| Ancestry.ParentsByBits | Development/nmos-cpp-node/node_implementation.cpp:2550-2558 | With t ones at the end and n ones behind the next bit there are n + 1 parents if t is not 0, and none otherwise. |
| Ancestry.ParentIsDifference | Development/nmos-cpp-node/node_implementation.cpp:2552-2558 | The k-th parent is the index less 2 to the power of t - 1 and less the first k bits of the next run, as numbers. |
| Ancestry.ParentsDecrease | Development/nmos-cpp-node/node_implementation.cpp:2553-2558 | Parents are strictly decreasing. |
| Ancestry.ParentHasOneFewer | Development/nmos-cpp-node/node_implementation.cpp:2550-2558 | Every parent is smaller than the index and has exactly one trailing one fewer. |
| Ancestry.LineCountsDown | Development/nmos-cpp-node/node_implementation.cpp:2545-2559 | Along every line of descent all later indices are smaller than the first and trailing ones count down by one. |
| Ancestry.DepthIsTrailingOnes | Development/nmos-cpp-node/node_implementation.cpp:2545-2559 | A line of descent cannot be continued if and only if it is as long as there are trailing ones at its start. |

## Left out

- Order of JSON object fields: a field new to an object goes to the end, where cpprest keeps objects sorted unless told to keep order; only the query codec's results, where the original keeps the order, and what a throwing strict merge leaves, which goes by the order of the patch's fields, are about it.
- JsonPaths.InsertField: the pointer into the tree is modelled by the way back up from it, so aliasing is not captured.
- Error texts of the LLDP decoders are not told apart beyond the enumeration, and all failures of a management address are one.
- IP and MAC address texts: only whether the original prints them as non-empty.
- Frames on the wire of the manager stand for their encodings; timers are ticks of live tasks, cancelling a task and waiting for it is one action, and threads, pcap and host interfaces are left out. The data unit that `configure_interface` builds without data is described above but the host lookups around it are not modelled.
- Receiving of frames: only whether a receiver is running.
- Header names are compared as they are, not case-insensitively; `http_headers::add` is part of cpprest and modelled as the comment in `has_header_value` describes it.
- Router.ApiRouter.Run: the regular expression engine is a function of each route, and the decoding and encoding of paths one of the request; handlers are functions that return the response they leave, so concurrent changes by asynchronous handlers, and changes of the request or of the routes while they are tried, are left out.
- RouterProofs.MountedSeesRest: about paths that hold nothing encoded; otherwise the rest is what cpprest's decoding and encoding make of it.
- LLDP, query and JSON texts: characters are the units, so UTF-8 and the sign of `char` are left out; numbers are opaque texts, without the double formatting of `num_put`.
- `uri::decode` and `uri::encode_uri` are part of cpprest: decoding follows section 2.1 of RFC 3986, and the characters that encoding leaves alone are a parameter of every result.
- QueryCodecProofs.QueryRoundTrip: serialization of values that are not strings is a parameter, and their texts must not bring unencoded separators.
- RegexNamesProofs.NameIsOrdinalIff: the engine is std::regex with its default grammar, as far as escapes, classes and the openings of groups go; a regex it rejects for another reason, such as an unbalanced parenthesis or an unknown class name, has no groups at all, and boost::regex, which replaces it for old compilers (Development/bst/regex.h:8-24), is not modelled.
- Ancestry.Resource.InsertParents: the index is unbounded and not negative, as its callers count up from 0; the hash behind `make_id` is a function of the index.
- Not modelled: `match_query` (matching a resource against a query's field values), the HTML visitor (a third text for the same callbacks), API version parsing and ordering, string enumerations, the CORS headers and the bodies of error responses.
