# graphql-mcp bridge: verified model of main.go

graphql-mcp exposes a GraphQL API as tools for an agent protocol: `list_queries`,
`list_mutations`, `describe`, `invoke_graphql` and `set_headers`. This project models the
logic in `main.go` that sits between those tools and the GraphQL client library:

- **Describe** (`describeGraphQLEntities`). A comma-separated request is split and each name
  is trimmed. The names are looked up, in order, in the map from entity name to description.
  The result is all or nothing. Either every description comes back, joined by a blank line,
  or the text is empty and the error names the first missing name. The error also lists up
  to three names that do exist. The map is built by the GraphQL client library
  (`GetSchemaMapString`), so here it is an input.
- **Listing** (`listGraphQLQueries`, `listGraphQLMutations`). The output is a header line,
  then one formatted line per root field in declaration order. The per-field formatter
  (`PrettyPrintField`) belongs to the client library, so it is a function parameter over an
  opaque field type.
- **Invoke** (the front half of the `invoke_graphql` handler). This covers reading the
  string arguments and choosing the operation. A non-empty mutation overrides the query,
  and a call with neither is rejected. The handler's decision is a `Dispatch` value.
- **Headers** (`currentHeaders`, `setHeaders`, `getHeaders`). The store is a `HeaderStore`
  class whose map field the methods update in place. `setHeaders` sets the environment's
  headers and then the caller's, or changes nothing if either JSON fails to decode.
  `getHeaders` fills the store from the environment whenever the store is empty, so an
  unset, empty or malformed environment value is read again on the next call.
- **GoStrings**. Models of the Go `strings` functions these use: `Split`, `Join` and
  `TrimSpace` (with `unicode.IsSpace`'s set of white-space characters). `Split` and `Join`
  come with round-trip lemmas. `TrimSpace` comes with lemmas that its result is an infix of
  the input, that padding does not change it, and that it is idempotent.

Decoding JSON and reading `GRAPHQL_HEADERS` are outside the model. Their outcomes are
parameters: a `Decoded` value, and `None` for an empty variable.

The example names in a "not found" error come from Go map iteration (main.go:355-360), whose
order is unspecified, so the model lets them be any distinct existing names, up to three.
A listing is one string: the header line plus newline-terminated lines (main.go:313-319).

## Model

| member | source | states |
|---|---|---|
| `Describe.Describe` | main.go:340-365 | success exactly when every trimmed name is present, and then the text is their descriptions in request order joined by a blank line; otherwise the text is empty and the error names the first missing trimmed name and carries a valid example list |
| `Describe.SampleKeys` | main.go:354-360 | the example names are distinct, all present in the map, and number min(3, size of the map), so none for an empty map |
| `Describe.FirstMissing` | main.go:349-353 | the lookup stops at the first missing name: every earlier name is present and the one at the stop is absent |
| `Describe.Message` | main.go:361 | the error text quotes the missing name and the joined example list literally |
| `Describe.MessageQuotesExamples` | main.go:361 | every single example name occurs literally in the error text |
| `Describe.Tokens` | main.go:347-350 | a request always asks for at least one name, and no name contains a comma |
| `Describe.TrimAllAppend` | main.go:347-350 | trimming the pieces of two lists is trimming each list's pieces |
| `Describe.ResolvedText` | main.go:364 | a single found name gives exactly its description, and every requested description occurs literally in the text |
| `Describe.TokensAround` | main.go:347-350 | a comma splits a request into the names of its left side followed by those of its right side |
| `Describe.TokensPadded` | main.go:350 | a comma-free name asks for exactly its trimmed self however it is padded with white space, so " x " and "x" give the same outcome |
| `Describe.EmptyNamesRequested` | main.go:347-350 | an empty request asks for the empty name once and ",," asks for it three times |
| `Describe.EmptyNameIsAMiss` | main.go:347-353 | with no "" entry, both "" and ",," fail at their first name instead of crashing |
| `Describe.EmptyIndexAlwaysFails` | main.go:351-361 | against an empty map every request fails at its first name, and the only valid example list is empty |
| `Describe.ResolvedTextAround` | main.go:347-364 | a successful "a,b" describes a, then a blank line, then b |
| `Describe.DuplicateNameDescribedTwice` | main.go:347-364 | a name requested twice yields its description twice, separated by a blank line |
| `Describe.MissStopsAtFirst` | main.go:349-361 | a miss in the left part of "a,b" is reported no matter what b asks for |
| `GoStrings.IsSpace` | main.go:350 | the comma separator is never white space, so trimming cannot remove it |
| `GoStrings.TrimSpaceKeepsOut` | main.go:350 | trimming never introduces a character the input lacks |
| `GoStrings.TrimLeftSpace` | main.go:350 | the result is a suffix of the input, what it drops is white space, and it does not start with white space |
| `GoStrings.TrimRightSpace` | main.go:350 | the result is a prefix of the input, what it drops is white space, and it does not end with white space |
| `GoStrings.TrimSpace` | main.go:350 | the result neither starts nor ends with white space |
| `GoStrings.TrimSpaceIsInfix` | main.go:350 | the input is white space, then the trimmed result, then white space |
| `GoStrings.TrimSpacePadding` | main.go:350 | surrounding white space never changes the trimmed result |
| `GoStrings.TrimSpaceIdempotent` | main.go:350 | trimming twice equals trimming once |
| `GoStrings.TrimLeftSpaceAppend` | main.go:350 | trimming the front of s + t keeps t whole when s is not all white space |
| `GoStrings.Split` | main.go:347 | the split has at least one piece and no piece holds the separator |
| `GoStrings.SplitNoSep` | main.go:347 | a string without the separator splits into itself alone |
| `GoStrings.SplitAround` | main.go:347 | splitting x, separator, y gives the pieces of x followed by the pieces of y |
| `GoStrings.JoinSplit` | main.go:347 | joining the pieces of a split with the separator gives back the input |
| `GoStrings.SplitJoin` | main.go:347 | splitting a join of separator-free pieces gives back the pieces |
| `GoStrings.Join` | main.go:361-364 | joining no parts gives "" and joining one part gives that part |
| `GoStrings.JoinAppend` | main.go:364 | joining two non-empty lists puts exactly one separator between their joins |
| `GoStrings.JoinContainsPart` | main.go:361 | every part occurs literally in the joined string |
| `Listing.ListFields` | main.go:313-319 | the output is the title line followed by each formatted field plus a newline, in input order |
| `Listing.ListQueries` | main.go:308-320 | the output is "Queries:\n" followed by one formatted line per query field, in order; with no fields it is the header alone |
| `Listing.ListMutations` | main.go:324-336 | the output is "Mutations:\n" followed by one formatted line per mutation field, in order; with no fields it is the header alone |
| `Listing.Lines` | main.go:315-318 | the body is empty exactly when there are no fields, and otherwise ends with a newline |
| `Listing.LinesSnoc` | main.go:315-318 | appending a field appends its formatted line and a newline |
| `Listing.LinesSplit` | main.go:315-318 | when no formatted field spans two lines, the body read back line by line is exactly the formatted fields in order |
| `Listing.ListingLines` | main.go:313-319 | a whole listing read back line by line is the title, then one line per field in order, then the empty piece after the final newline |
| `Listing.ListingDeterminesFields` | main.go:313-319 | two listings are equal exactly when their formatted field lists are equal |
| `Invoke.StringArg` | main.go:252-270 | a non-empty argument value is a string argument present under that name, and an absent or non-string argument reads as "" |
| `Invoke.SelectOperation` | main.go:273-281 | rejection with "No valid query or mutation provided" exactly when both are empty; a non-empty mutation is run in preference to the query |
| `Invoke.HandleInvoke` | main.go:252-281 | the call is rejected with "No valid query or mutation provided" exactly when both string arguments read as empty; a non-empty string "mutation" is run in preference to the query; what is run is never empty, comes with the "variables" argument, and is the string given as "mutation" or as "query" |
| `Invoke.NonStringArgumentIgnored` | main.go:252-270 | an argument of a non-string type is treated exactly as a missing one |
| `Headers.EnvHeaders` | main.go:434-439 | an empty variable gives no headers, a decodable one gives exactly its decoded map, and only an undecodable one is a failure |
| `Headers.Merge` | main.go:440-448 | the caller's keys hold the caller's values; environment keys the caller left out hold the environment's values; other keys are unchanged; no other key appears |
| `Headers.Loaded` | main.go:456-469 | a non-empty store is returned unchanged; an empty store with decodable environment headers becomes exactly those headers; otherwise nothing changes |
| `Headers.HeaderStore.constructor` | main.go:159 | the store starts empty |
| `Headers.HeaderStore.SetAll` | main.go:440-448 | every entry of the map is set over the store and nothing else changes |
| `Headers.HeaderStore.SetHeaders` | main.go:427-451 | on success the store becomes Merge(old store, environment, caller); on either decode failure it is unchanged and the error says which input failed |
| `Headers.HeaderStore.GetHeaders` | main.go:454-470 | the store becomes Loaded(old store, environment) and is returned |
| `Headers.MergeIdempotent` | main.go:427-451 | repeating a successful set with the same inputs changes nothing more |
| `Headers.MergeUserWins` | main.go:445-448 | a caller-supplied key ends with the caller's value whatever the store held before |
| `Headers.LoadedIdempotent` | main.go:456-469 | a second getHeaders finds the store the first one left |
| `Headers.NoReloadAfterSet` | main.go:454-470 | once a successful set has stored anything, getHeaders never reloads from the environment |

## Left out

- The introspection call (`graphql.Introspect`, main.go:309, 325, 341) and its error return: a network call. The listers and the resolver take its result as input. Its header argument is `getHeaders()`, so in the source every list_queries, list_mutations and describe call can fill an empty header store; `ListQueries`, `ListMutations` and `Describe` do not touch a `HeaderStore`, and that side effect is captured only by `HeaderStore.GetHeaders` itself.
- `graphql.PrettyPrintField` and `graphql.GetSchemaMapString`: they are in the external client library, which is not part of this model. The first is a formatter parameter and the second an input map. Type-reference rendering, field signatures and index construction are therefore not modelled.
- `invokeGraphQLOperation` (main.go:369-406): the HTTP request, decoding the variables JSON and pretty-printing the response. The model stops at the `Execute` decision.
- MCP server construction, tool registration, stdio serving, `toolSuccess`/`toolError` and the handlers' error-text prefixes (main.go:164-304 except 252-281, and 410-424): transport plumbing.
- The panic recovery in the `invoke_graphql` handler (main.go:245-249) and the tool-description constants (main.go:27-153), which are documentation text.
- `json.Unmarshal`, `os.Getenv` and `http.Header.Set`'s key canonicalisation: foreign library calls. Their outcomes are parameters, and header names are taken as canonical. Because `Set` stores one value per key, the store is a string-to-string map.
- `getHeaders` returns the live global map (main.go:469), so its callers share the store with it. `GetHeaders` returns the map as a value, so aliasing between a caller's copy and the store is not modelled.
- The log warning `getHeaders` prints when the environment JSON does not decode: logging.
- Go map iteration order: it is unspecified, so which example names `SampleKeys` chooses, and in what order, is left open.
- Go strings are UTF-8 bytes. Here they are sequences of Unicode scalar values, so invalid UTF-8 input is not modelled.
