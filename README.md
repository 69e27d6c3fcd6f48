# go-mecab-server gateway, modelled in Dafny

go-mecab-server is an HTTP service. It takes a sentence (`sentense`) and a
comma-separated list of backends (`parsers`). It runs the sentence through
MeCab with one or more dictionaries: IPADIC, NEologd and UniDic. The result
is a JSON object with one section per backend. Each section lists the
morphemes with their surface, raw feature string, part of speech, base form
and reading.

This project models the pure core of `main.go`:

- **Feature normaliser** (`feature.dfy`, module `Feature`). A feature string,
  already cut into CSV fields, becomes a response `Node`.
  - The part of speech is built from the first four fields, with the wildcard
    `*` dropped and the rest joined by `-`.
  - The reading and the base form are taken from fixed columns.
  - The column positions live in one table, `Layout`. IPADIC and NEologd read
    the base form from field 6 and the reading from field 7. UniDic reads the
    reading from field 6 and the base form from field 8.
  - A column past the end of the field list gives `""`.
- **Node walk** (`nodes.dfy`, module `Nodes`). The tokenizer's node list is
  walked in order.
  - BOS and EOS sentinels are skipped. Every other node yields exactly one
    response node.
  - IPADIC and NEologd use `node2struct`, and UniDic uses the loop in
    `parseMeCabUnidic`. Here both are the one method `Flatten`, which takes
    the column mapping as a parameter.
  - A node whose feature splits into fewer than four fields makes the service
    panic, because it slices `features[:4]`. The model returns an error
    result instead.
- **Dispatch and aggregation** (`handler.dfy`, module `Handler`).
  - An empty `parsers` value means `mecab_ipadic`. The value is split on
    commas into a set.
  - The IPADIC section is computed when requested. NEologd is computed when
    requested and a dictionary directory is configured; its version is set
    alongside. UniDic is computed when requested and its dictionary loaded.
  - Sections that are not computed keep their zero value.
  - An engine error, or a malformed feature in any backend that runs, fails
    the whole request.
- **String helpers** (`strings.dfy`, module `Strings`). These model Go's
  `strings.Split` with a one-character separator and `strings.Join`. They are
  proved to be inverses of each other.

Inputs that the service gets from its environment become parameters:

- `Config` holds the NEologd dictionary directory and version string read at
  startup, and whether the UniDic model could be built.
- `Tokenizer` stands for MeCab. It maps a backend and a sentence to a node
  list, or to `None` when `NewMeCab` or `ParseToNode` fails.
- `Splitter` stands for the `encoding/csv` reader behind `splitFeature`. It is
  any function from a string to a field list.

Each state-changing loop in the source is a method with loop invariants. Each
method is proved equal to a specification function:

- `Flatten` against `Flattened`.
- `CollectPosElements` against `PosElements`.
- `ParserSet` against `Split`.
- `ParseMeCab` against `Parse`.
- `Handle` against `Respond`.

The lemmas state the promised properties about those functions.

The model follows the code in these details, which a reader of the API might expect otherwise:

- The default applies only when the `parsers` string itself is empty. A value
  such as `,` requests the empty name twice and so yields no section at all;
  it does not fall back to IPADIC.
- "Absent" base forms and readings are empty strings. The JSON encoder's
  `omitempty` then drops them.
- Engine errors are panics inside the handler. They end the request without a
  response.

## Model

| member | source | states |
|---|---|---|
| Strings.Split | main.go:115 | `strings.Split` with a one-character separator: always at least one piece, and no piece contains the separator |
| Strings.SplitWithoutSeparator | main.go:111-115 | a string without a comma, such as the default `mecab_ipadic`, splits into exactly itself |
| Strings.SplitConcat | main.go:115 | splitting `a + "," + b` gives the pieces of `a` followed by the pieces of `b` |
| Strings.JoinSplit | main.go:115 | joining the pieces of a split with the same separator gives back the original string |
| Strings.SplitJoin | main.go:233 | when no part contains the separator, splitting a non-empty join gives back exactly the parts |
| Strings.JoinIsEmpty | main.go:233 | a join with a non-empty separator is empty iff there are no parts or one empty part |
| Feature.PosElementsConcat | main.go:216-221 | the wildcard filter distributes over concatenation, so kept fields keep their original order |
| Feature.PosElementsFilter | main.go:216-221 | the filter keeps no more fields than given, never `*`, only given fields, every non-`*` field; it is empty iff every field is `*` |
| Feature.CollectPosElements | main.go:183-188 | the `posElem` loop over `features[:4]` yields exactly the non-wildcard fields in order |
| Feature.PosShape | main.go:216-233 | the non-`*` fields among the first four, which POS joins with `-`, are at most four and never `*`; POS is `""` when all four are `*`, and `""` iff at most one empty element remains |
| Feature.PosSegments | main.go:233 | when no first-four field contains `-`, POS read back as segments has at most 4, none `*`, and a non-empty filter result is recovered exactly |
| Feature.PosSegmentsNeedsPlainFields | main.go:233 | the no-`-` condition of `PosSegments` is needed: fields `a-b,c,d,e` give a POS that reads back as five segments |
| Feature.IpadicColumns | main.go:222-229 | IPADIC: surface and feature verbatim; baseform is field 6 if more than 6 fields, reading is field 7 if more than 7, else `""` |
| Feature.NeologdColumns | main.go:150-161 | NEologd goes through `node2struct` and gets the same columns as IPADIC |
| Feature.UnidicColumns | main.go:189-196 | UniDic: reading is field 6 if more than 6 fields, baseform is field 8 if more than 8, else `""`; never an error |
| Feature.IpadicExample | main.go:222-233 | `名詞,一般,*,*,*,*,犬,イヌ` under IPADIC gives POS `名詞-一般`, baseform `犬`, reading `イヌ` |
| Nodes.RealNodesConcat | main.go:210-213 | dropping sentinels distributes over concatenation (traversal order is kept) |
| Nodes.RealNodesMembers | main.go:210-213 | the kept nodes are exactly the list's non-BOS/EOS nodes, and there are no more of them than nodes |
| Nodes.FlattenedErrorPersists | main.go:215-217 | once a node panics on `features[:4]`, the rest of the list cannot change the outcome |
| Nodes.FlattenedFails | main.go:214-217 | the walk fails iff some non-sentinel node's feature has fewer than 4 fields, and it reports the first such node |
| Nodes.FlattenedRecords | main.go:208-239 | with no malformed node, the walk yields one node per non-sentinel node in order, each its normalisation with surface and feature verbatim; output length equals the non-sentinel count |
| Nodes.SentinelsOnly | main.go:176-181 | a list of BOS/EOS nodes only, as the empty sentence gives, yields the empty node list, not an error |
| Nodes.Flatten | main.go:176-205 | the node loop (the same code in `node2struct`, lines 208-239) computes exactly `Flattened` for the given column mapping |
| Handler.DefaultRequested | main.go:111-113 | an empty `parsers` value requests exactly `{"mecab_ipadic"}` |
| Handler.ExplicitRequested | main.go:114-117 | otherwise a name is requested iff it is one of the comma-separated pieces |
| Handler.ParserSet | main.go:114-117 | the `parsersMap` loop yields a set holding exactly the pieces |
| Handler.SectionPresence | main.go:119-129 | IPADIC section present iff requested; NEologd iff requested and dicdir non-empty; UniDic iff requested and available; each present section is that backend's parse; version set iff NEologd section present |
| Handler.RespondFails | main.go:136-146 | the request fails iff a selected backend fails, with the error of the first failing backend in the order IPADIC, NEologd, UniDic |
| Handler.OnlyKnownNamesMatter | main.go:119-129 | two parameter values that agree on the three backend names give the same response |
| Handler.UnknownNamesIgnored | main.go:114-129 | appending comma-separated unknown names leaves the response unchanged |
| Handler.DuplicatesIgnored | main.go:114-117 | repeating the list of names leaves the response unchanged |
| Handler.DefaultSelection | main.go:111-129 | with an empty `parsers` value IPADIC is selected and NEologd and UniDic are not, whatever the configuration |
| Handler.DefaultResponse | main.go:111-121 | with the default parameters only the IPADIC section is present, the version is empty, and the token count equals the non-sentinel node count |
| Handler.ParseMeCab | main.go:136-175 | a backend's parse is an engine error when the tagger or `ParseToNode` fails, otherwise the walk with that backend's columns |
| Handler.Handle | main.go:106-134 | the handler's step-by-step assignments compute exactly `Respond` |

## Left out

- Listener bootstrap with Server::Starter and the `:8080` fallback (main.go:62-75): socket I/O from the environment.
- The SIGTERM handler and `gracedown.Serve`/`Close` (main.go:51-60, 103): concurrency and graceful drain.
- Startup (main.go:77-99): running `mecab-config`, reading and decoding `neologd-config.yml`, and building the models are process, file and foreign-library I/O. Their results are the `Config` fields. A NEologd model that fails to build aborts startup, so it never reaches a request.
- The MeCab engine (`NewMeCab`, `ParseToNode`, `Next`, `Destroy`): a C library. An abstract `Tokenizer` function and its `None` result replace it. The release of the tagger by `defer tagger.Destroy()` is not modelled.
- The `encoding/csv` reader behind `splitFeature` (main.go:241-244): a record parser for section 2 of RFC 4180. It is the abstract `Splitter`. The error it returns is ignored by the source, and its field list is used as it is.
- HTTP form parsing, the `Content-Type` header and JSON encoding, including `omitempty` (main.go:107-110, 131-133): transport and serialisation.
- How `net/http` treats a panic (it recovers it and closes the connection): the model stops at the error result.
- `Splitter` results are taken to have capacity equal to length, as `encoding/csv` allocates them, so slicing `[:4]` on fewer than four fields panics.
