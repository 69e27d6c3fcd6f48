/**
 The request handler: it reads the `parsers` parameter (default
 `mecab_ipadic`), turns its comma-separated names into a set, runs each
 requested backend that is available and fills the matching response
 sections. Unrequested and unavailable sections keep their zero value; an
 engine error or a malformed feature in any backend that runs fails the whole
 request.

 What the service learns at startup is the `Config`; the MeCab engine is the
 `Tokenizer` parameter and the CSV reader the `Splitter` parameter.
 */
module Handler {
  import opened Strings
  import opened Feature
  import opened Nodes

  const IPADIC_NAME: string := "mecab_ipadic"
  const NEOLOGD_NAME: string := "mecab_neologd"
  const UNIDIC_NAME: string := "mecab_unidic"

  datatype Option<T> = None | Some(value: T)

  /** What startup established: the NEologd dictionary directory and version, and whether UniDic loaded. */
  datatype Config = Config(neologdDicdir: string, neologdVersion: string, unidicAvailable: bool)

  /**
   The response. A section is `None` while it holds Go's zero value (a nil
   slice) and `Some` once the backend has been run; the version is `""`
   unless the NEologd section was filled.
   */
  datatype APIResponse = APIResponse(
    ipadic: Option<seq<Node>>,
    neologd: Option<seq<Node>>,
    neologdVersion: string,
    unidic: Option<seq<Node>>)

  /** Making a tagger for a backend and parsing a sentence: the node list, or `None` on an engine error. */
  type Tokenizer = (Backend, string) -> Option<seq<MeCabNode>>

  /** The `parsers` value after defaulting: the empty value means IPADIC alone. */
  function ParsersOrDefault(parsers: string): string
  {
    if parsers == "" then IPADIC_NAME else parsers
  }

  /** The set of requested backend names. */
  function Requested(parsers: string): set<string>
  {
    set p | p in Split(ParsersOrDefault(parsers), ',')
  }

  /** Whether a backend's section is computed: requested, and for the optional ones also available. */
  predicate Selected(cfg: Config, requested: set<string>, b: Backend)
  {
    match b
    case IPADIC => IPADIC_NAME in requested
    case NEologd => NEOLOGD_NAME in requested && cfg.neologdDicdir != ""
    case UniDic => UNIDIC_NAME in requested && cfg.unidicAvailable
  }

  /** Running one backend on the sentence: tokenize, then walk with that backend's columns. */
  function Parse(b: Backend, tok: Tokenizer, split: Splitter, sentence: string): Result<seq<Node>>
  {
    match tok(b, sentence)
    case None => Err(EngineError)
    case Some(nodes) => Flattened(nodes, split, Layout(b))
  }

  /** A section: its zero value when not selected, otherwise the backend's parse. */
  function Section(selected: bool, b: Backend, tok: Tokenizer, split: Splitter, sentence: string): Result<Option<seq<Node>>>
  {
    if !selected then Ok(None)
    else
      var nodes :- Parse(b, tok, split, sentence);
      Ok(Some(nodes))
  }

  /** The response to one request; the backends run in the order IPADIC, NEologd, UniDic. */
  function Respond(cfg: Config, tok: Tokenizer, split: Splitter, sentence: string, parsers: string): Result<APIResponse>
  {
    var requested := Requested(parsers);
    var ipadic :- Section(Selected(cfg, requested, IPADIC), IPADIC, tok, split, sentence);
    var neologd :- Section(Selected(cfg, requested, NEologd), NEologd, tok, split, sentence);
    var unidic :- Section(Selected(cfg, requested, UniDic), UniDic, tok, split, sentence);
    Ok(APIResponse(ipadic, neologd, if neologd.Some? then cfg.neologdVersion else "", unidic))
  }

  /** The position of a backend in the order the handler runs them. */
  function Rank(b: Backend): nat
  {
    match b
    case IPADIC => 0
    case NEologd => 1
    case UniDic => 2
  }

  /** An empty `parsers` value requests exactly IPADIC. */
  lemma DefaultRequested(parsers: string)
    requires parsers == ""
    ensures Requested(parsers) == {IPADIC_NAME}
  {
    SplitWithoutSeparator(IPADIC_NAME, ',');
  }

  /** Otherwise the requested names are exactly the comma-separated pieces. */
  lemma ExplicitRequested(parsers: string, name: string)
    requires parsers != ""
    ensures name in Requested(parsers) <==> name in Split(parsers, ',')
  {
  }

  /**
   Section presence and content: a section is filled exactly when its backend
   is selected, and then with that backend's parse; the NEologd version comes
   with the NEologd section and is empty without it.
   */
  lemma SectionPresence(cfg: Config, tok: Tokenizer, split: Splitter, sentence: string, parsers: string)
    requires Respond(cfg, tok, split, sentence, parsers).Ok?
    ensures var resp := Respond(cfg, tok, split, sentence, parsers).value;
      var requested := Requested(parsers);
      && (resp.ipadic.Some? <==> IPADIC_NAME in requested)
      && (resp.neologd.Some? <==> NEOLOGD_NAME in requested && cfg.neologdDicdir != "")
      && (resp.unidic.Some? <==> UNIDIC_NAME in requested && cfg.unidicAvailable)
      && (resp.ipadic.Some? ==> Parse(IPADIC, tok, split, sentence) == Ok(resp.ipadic.value))
      && (resp.neologd.Some? ==> Parse(NEologd, tok, split, sentence) == Ok(resp.neologd.value))
      && (resp.unidic.Some? ==> Parse(UniDic, tok, split, sentence) == Ok(resp.unidic.value))
      && resp.neologdVersion == (if resp.neologd.Some? then cfg.neologdVersion else "")
  {
  }

  /**
   The request fails exactly when a selected backend fails; the error is that
   of the first failing backend in running order.
   */
  lemma RespondFails(cfg: Config, tok: Tokenizer, split: Splitter, sentence: string, parsers: string)
    ensures var requested := Requested(parsers);
      Respond(cfg, tok, split, sentence, parsers).Err? <==>
        exists b :: Selected(cfg, requested, b) && Parse(b, tok, split, sentence).Err?
    ensures var requested := Requested(parsers);
      Respond(cfg, tok, split, sentence, parsers).Err? ==>
        exists b :: Selected(cfg, requested, b)
          && Parse(b, tok, split, sentence) == Err(Respond(cfg, tok, split, sentence, parsers).error)
          && forall b' :: Rank(b') < Rank(b) && Selected(cfg, requested, b') ==> Parse(b', tok, split, sentence).Ok?
  {
    var requested := Requested(parsers);
    var r := Respond(cfg, tok, split, sentence, parsers);
    if Selected(cfg, requested, IPADIC) && Parse(IPADIC, tok, split, sentence).Err? {
      assert r.Err?;
    } else if Selected(cfg, requested, NEologd) && Parse(NEologd, tok, split, sentence).Err? {
      assert r.Err?;
    } else if Selected(cfg, requested, UniDic) && Parse(UniDic, tok, split, sentence).Err? {
      assert r.Err?;
    } else {
      forall b | Selected(cfg, requested, b)
        ensures Parse(b, tok, split, sentence).Ok?
      {
        match b
        case IPADIC =>
        case NEologd =>
        case UniDic =>
      }
      assert r.Ok?;
    }
  }

  /** The response depends on the requested set only through the three known names. */
  lemma OnlyKnownNamesMatter(cfg: Config, tok: Tokenizer, split: Splitter, sentence: string, p: string, q: string)
    requires forall name :: name in {IPADIC_NAME, NEOLOGD_NAME, UNIDIC_NAME} ==>
      (name in Requested(p) <==> name in Requested(q))
    ensures Respond(cfg, tok, split, sentence, p) == Respond(cfg, tok, split, sentence, q)
  {
    assert forall b :: Selected(cfg, Requested(p), b) == Selected(cfg, Requested(q), b);
  }

  /** Appending names that are not backend names changes nothing. */
  lemma UnknownNamesIgnored(cfg: Config, tok: Tokenizer, split: Splitter, sentence: string, p: string, q: string)
    requires p != ""
    requires forall k :: 0 <= k < |Split(q, ',')| ==> Split(q, ',')[k] !in {IPADIC_NAME, NEOLOGD_NAME, UNIDIC_NAME}
    ensures Respond(cfg, tok, split, sentence, p + "," + q) == Respond(cfg, tok, split, sentence, p)
  {
    SplitConcat(p, q, ',');
    assert Split(p + "," + q, ',') == Split(p, ',') + Split(q, ',');
    OnlyKnownNamesMatter(cfg, tok, split, sentence, p + "," + q, p);
  }

  /** Repeating the request list changes nothing. */
  lemma DuplicatesIgnored(cfg: Config, tok: Tokenizer, split: Splitter, sentence: string, p: string)
    requires p != ""
    ensures Respond(cfg, tok, split, sentence, p + "," + p) == Respond(cfg, tok, split, sentence, p)
  {
    SplitConcat(p, p, ',');
    assert Split(p + "," + p, ',') == Split(p, ',') + Split(p, ',');
    assert Requested(p + "," + p) == Requested(p);
  }

  /**
   With the default parameters the response holds the IPADIC section alone,
   and, when no node is malformed, one token per non-sentinel node.
   */
  lemma DefaultResponse(cfg: Config, tok: Tokenizer, split: Splitter, sentence: string, parsers: string,
                        nodes: seq<MeCabNode>)
    requires parsers == ""
    requires tok(IPADIC, sentence) == Some(nodes)
    requires forall i :: 0 <= i < |nodes| ==> !Malformed(nodes[i], split)
    ensures Respond(cfg, tok, split, sentence, parsers).Ok?
    ensures var resp := Respond(cfg, tok, split, sentence, parsers).value;
      && resp.ipadic.Some? && resp.neologd.None? && resp.unidic.None? && resp.neologdVersion == ""
      && |resp.ipadic.value| == |RealNodes(nodes)|
  {
    DefaultSelection(cfg, parsers);
    FlattenedRecords(nodes, split, Layout(IPADIC));
    var xs := Flattened(nodes, split, Layout(IPADIC)).value;
    assert Parse(IPADIC, tok, split, sentence) == Ok(xs);
  }

  /** With the default parameters only IPADIC is selected. */
  lemma DefaultSelection(cfg: Config, parsers: string)
    requires parsers == ""
    ensures Selected(cfg, Requested(parsers), IPADIC)
    ensures !Selected(cfg, Requested(parsers), NEologd) && !Selected(cfg, Requested(parsers), UniDic)
  {
    DefaultRequested(parsers);
    assert NEOLOGD_NAME[6] != IPADIC_NAME[6] && UNIDIC_NAME[6] != IPADIC_NAME[6];
  }

  /** The `parsersMap` loop: every comma-separated piece becomes a member of the set. */
  method ParserSet(parsers: string) returns (parsersMap: set<string>)
    ensures forall p :: p in parsersMap <==> p in Split(parsers, ',')
  {
    var pieces := Split(parsers, ',');
    parsersMap := {};
    for i := 0 to |pieces|
      invariant forall p :: p in parsersMap <==> p in pieces[..i]
    {
      parsersMap := parsersMap + {pieces[i]};
      assert pieces[..i + 1] == pieces[..i] + [pieces[i]];
    }
    assert pieces[..|pieces|] == pieces;
  }

  /** One backend's parse (`parseMeCabIPADIC`, `parseMeCabNEologd`, `parseMeCabUnidic`). */
  method ParseMeCab(b: Backend, tok: Tokenizer, split: Splitter, sentence: string) returns (r: Result<seq<Node>>)
    ensures r == Parse(b, tok, split, sentence)
  {
    var parsed := tok(b, sentence);
    if parsed.None? {
      return Err(EngineError);
    }
    r := Flatten(parsed.value, split, Layout(b));
  }

  /** The handler: default the parameter, build the set, fill the sections one after another. */
  method Handle(cfg: Config, tok: Tokenizer, split: Splitter, sentence: string, parsers: string)
    returns (r: Result<APIResponse>)
    ensures r == Respond(cfg, tok, split, sentence, parsers)
  {
    var names := parsers;
    if names == "" {
      names := IPADIC_NAME;
    }
    var parsersMap := ParserSet(names);
    assert parsersMap == Requested(parsers);
    var result := APIResponse(None, None, "", None);
    if IPADIC_NAME in parsersMap {
      var nodes :- ParseMeCab(IPADIC, tok, split, sentence);
      result := result.(ipadic := Some(nodes));
    }
    if NEOLOGD_NAME in parsersMap && cfg.neologdDicdir != "" {
      var nodes :- ParseMeCab(NEologd, tok, split, sentence);
      result := result.(neologd := Some(nodes));
      result := result.(neologdVersion := cfg.neologdVersion);
    }
    if UNIDIC_NAME in parsersMap && cfg.unidicAvailable {
      var nodes :- ParseMeCab(UniDic, tok, split, sentence);
      result := result.(unidic := Some(nodes));
    }
    r := Ok(result);
  }
}
