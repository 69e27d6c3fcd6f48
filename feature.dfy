/**
 The feature normaliser: how one MeCab feature string, already cut into its
 CSV fields, becomes the `pos`, `baseform` and `reading` of a response node.

 The dictionaries place the reading and the base form in different columns.
 That knowledge lives in one table, `Layout`, and one function, `Normalise`,
 serves every backend.
 */
module Feature {
  import opened Strings

  /** The wildcard MeCab writes into an unused part-of-speech column. */
  const WILDCARD: string := "*"

  /** The character between part-of-speech segments. */
  const POS_SEPARATOR: char := '-'

  /** The tokenizer backends, one per dictionary. */
  datatype Backend = IPADIC | NEologd | UniDic

  /** Which CSV field holds the reading and which the base form. */
  datatype ColumnMapping = ColumnMapping(reading: nat, baseform: nat)

  /**
   The column table. IPADIC and NEologd share `node2struct` (base form in
   field 6, reading in field 7); UniDic has its own loop (reading in field 6,
   base form in field 8).
   */
  function Layout(b: Backend): ColumnMapping
  {
    match b
    case IPADIC => ColumnMapping(7, 6)
    case NEologd => ColumnMapping(7, 6)
    case UniDic => ColumnMapping(6, 8)
  }

  /** One node of the response, the `Node` record of the service. */
  datatype Node = Node(surface: string, feature: string, pos: string, baseform: string, reading: string)

  /** The field at index `i`, or the empty string when there are not more than `i` fields. */
  function Column(fields: seq<string>, i: nat): string
  {
    if |fields| > i then fields[i] else ""
  }

  /** The fields that are not the wildcard, in their original order. */
  function PosElements(head: seq<string>): seq<string>
  {
    if head == [] then []
    else (if head[0] != WILDCARD then [head[0]] else []) + PosElements(head[1..])
  }

  /** The part-of-speech tag: the non-wildcard fields among the first four, joined by `-`. */
  function Pos(fields: seq<string>): string
    requires |fields| >= 4
  {
    Join(PosElements(fields[..4]), [POS_SEPARATOR])
  }

  /** The response node for a MeCab node whose feature string splits into `fields`. */
  function Normalise(surface: string, feature: string, fields: seq<string>, m: ColumnMapping): Node
    requires |fields| >= 4
  {
    Node(surface, feature, Pos(fields), Column(fields, m.baseform), Column(fields, m.reading))
  }

  /** Filtering distributes over concatenation, so the kept fields stay in their original order. */
  lemma {:induction false} PosElementsConcat(a: seq<string>, b: seq<string>)
    ensures PosElements(a + b) == PosElements(a) + PosElements(b)
    decreases |a|
  {
    if a != [] {
      assert (a + b)[0] == a[0];
      assert (a + b)[1..] == a[1..] + b;
      PosElementsConcat(a[1..], b);
    } else {
      assert a + b == b;
    }
  }

  /**
   What the filter keeps: never more fields than it is given, never the
   wildcard, every non-wildcard field, nothing that was not given, and nothing
   at all exactly when every field is the wildcard.
   */
  lemma {:induction false} PosElementsFilter(head: seq<string>)
    ensures |PosElements(head)| <= |head|
    ensures forall e :: e in PosElements(head) ==> e != WILDCARD && e in head
    ensures forall k :: 0 <= k < |head| && head[k] != WILDCARD ==> head[k] in PosElements(head)
    ensures PosElements(head) == [] <==> forall k :: 0 <= k < |head| ==> head[k] == WILDCARD
    decreases |head|
  {
    if head != [] {
      PosElementsFilter(head[1..]);
      forall k | 1 <= k < |head|
        ensures head[k] == head[1..][k - 1]
      {
      }
    }
  }

  /**
   The shape of the part-of-speech tag: it is the join of at most four
   non-wildcard fields taken in order from the first four, and it is empty
   when all four are the wildcard.
   */
  lemma PosShape(fields: seq<string>)
    requires |fields| >= 4
    ensures |PosElements(fields[..4])| <= 4
    ensures forall e :: e in PosElements(fields[..4]) ==> e != WILDCARD
    ensures (forall k :: 0 <= k < 4 ==> fields[k] == WILDCARD) ==> Pos(fields) == ""
    ensures Pos(fields) == "" <==> PosElements(fields[..4]) == [] || PosElements(fields[..4]) == [""]
  {
    var head := fields[..4];
    PosElementsFilter(head);
    JoinIsEmpty(PosElements(head), [POS_SEPARATOR]);
    if forall k :: 0 <= k < 4 ==> fields[k] == WILDCARD {
      assert forall k :: 0 <= k < |head| ==> head[k] == WILDCARD;
    }
  }

  /**
   Read back as `-`-separated segments (when no field among the first four
   contains `-` itself), the part-of-speech tag has at most four segments,
   none of them the wildcard, and a non-empty filter result is recovered exactly.
   */
  lemma PosSegments(fields: seq<string>)
    requires |fields| >= 4
    requires forall k :: 0 <= k < 4 ==> POS_SEPARATOR !in fields[k]
    ensures PosElements(fields[..4]) != [] ==> Split(Pos(fields), POS_SEPARATOR) == PosElements(fields[..4])
    ensures |Split(Pos(fields), POS_SEPARATOR)| <= 4
    ensures forall seg :: seg in Split(Pos(fields), POS_SEPARATOR) ==> seg != WILDCARD
  {
    var head := fields[..4];
    var elems := PosElements(head);
    PosElementsFilter(head);
    if elems == [] {
      assert Pos(fields) == "";
      assert Split("", POS_SEPARATOR) == [""];
    } else {
      forall k | 0 <= k < |elems|
        ensures POS_SEPARATOR !in elems[k]
      {
        assert elems[k] in elems;
      }
      SplitJoin(elems, POS_SEPARATOR);
    }
  }

  /**
   The condition of `PosSegments` is needed: a field holding `-` itself adds
   a segment, so four fields can read back as five segments.
   */
  lemma PosSegmentsNeedsPlainFields(fields: seq<string>)
    requires fields == ["a-b", "c", "d", "e"]
    ensures |Split(Pos(fields), POS_SEPARATOR)| == 5
  {
    PosOfWitness(fields);
    var pieces := ["a", "b", "c", "d", "e"];
    forall k | 0 <= k < |pieces|
      ensures Split(pieces[k], POS_SEPARATOR) == [pieces[k]]
    {
      SplitWithoutSeparator(pieces[k], POS_SEPARATOR);
    }
    SplitConcat(pieces[3], pieces[4], POS_SEPARATOR);
    var de := pieces[3] + [POS_SEPARATOR] + pieces[4];
    SplitConcat(pieces[2], de, POS_SEPARATOR);
    var cde := pieces[2] + [POS_SEPARATOR] + de;
    SplitConcat(pieces[1], cde, POS_SEPARATOR);
    var bcde := pieces[1] + [POS_SEPARATOR] + cde;
    SplitConcat(pieces[0], bcde, POS_SEPARATOR);
    assert Pos(fields) == pieces[0] + [POS_SEPARATOR] + bcde;
  }

  /** The part-of-speech tag of the witness fields `a-b,c,d,e`. */
  lemma PosOfWitness(fields: seq<string>)
    requires fields == ["a-b", "c", "d", "e"]
    ensures Pos(fields) == "a-b-c-d-e"
  {
    assert fields[..4] == fields;
    assert PosElements(fields[3..]) == [fields[3]];
    assert PosElements(fields[2..]) == fields[2..];
    assert PosElements(fields[1..]) == fields[1..];
    assert PosElements(fields) == fields;
    var sep := [POS_SEPARATOR];
    assert Join(fields[3..], sep) == fields[3];
    assert Join(fields[2..], sep) == fields[2] + sep + fields[3];
    assert Join(fields[1..], sep) == fields[1] + sep + fields[2] + sep + fields[3];
  }

  /** IPADIC: surface and feature verbatim, base form from field 6, reading from field 7. */
  lemma IpadicColumns(surface: string, feature: string, fields: seq<string>)
    requires |fields| >= 4
    ensures var n := Normalise(surface, feature, fields, Layout(IPADIC));
      && n.surface == surface && n.feature == feature && n.pos == Pos(fields)
      && n.baseform == (if |fields| > 6 then fields[6] else "")
      && n.reading == (if |fields| > 7 then fields[7] else "")
  {
  }

  /** NEologd goes through the same path as IPADIC and has the same columns. */
  lemma NeologdColumns(surface: string, feature: string, fields: seq<string>)
    requires |fields| >= 4
    ensures var n := Normalise(surface, feature, fields, Layout(NEologd));
      && n.surface == surface && n.feature == feature && n.pos == Pos(fields)
      && n.baseform == (if |fields| > 6 then fields[6] else "")
      && n.reading == (if |fields| > 7 then fields[7] else "")
  {
  }

  /** UniDic: reading from field 6, base form from field 8; too few fields only leave them empty. */
  lemma UnidicColumns(surface: string, feature: string, fields: seq<string>)
    requires |fields| >= 4
    ensures var n := Normalise(surface, feature, fields, Layout(UniDic));
      && n.surface == surface && n.feature == feature && n.pos == Pos(fields)
      && n.reading == (if |fields| > 6 then fields[6] else "")
      && n.baseform == (if |fields| > 8 then fields[8] else "")
  {
  }

  /** An IPADIC example: `名詞,一般,*,*,*,*,犬,イヌ`. */
  lemma IpadicExample()
    ensures var n := Normalise("犬", "名詞,一般,*,*,*,*,犬,イヌ",
                               ["名詞", "一般", "*", "*", "*", "*", "犬", "イヌ"], Layout(IPADIC));
      && n.pos == "名詞-一般" && n.baseform == "犬" && n.reading == "イヌ"
  {
    var fields := ["名詞", "一般", "*", "*", "*", "*", "犬", "イヌ"];
    assert fields[..4] == ["名詞", "一般", "*", "*"];
    assert PosElements(["*"]) == [];
    assert PosElements(["*", "*"]) == [];
    assert PosElements(["一般", "*", "*"]) == ["一般"];
    assert PosElements(fields[..4]) == ["名詞", "一般"];
    assert Join(["一般"], [POS_SEPARATOR]) == "一般";
    assert Join(["名詞", "一般"], [POS_SEPARATOR]) == "名詞" + "-" + "一般";
  }

  /**
   The loop that collects the part-of-speech elements: it appends each of the
   given fields that is not the wildcard.
   */
  method CollectPosElements(head: seq<string>) returns (posElem: seq<string>)
    ensures posElem == PosElements(head)
  {
    posElem := [];
    for i := 0 to |head|
      invariant posElem == PosElements(head[..i])
    {
      if head[i] != WILDCARD {
        posElem := posElem + [head[i]];
      }
      assert head[..i + 1] == head[..i] + [head[i]];
      PosElementsConcat(head[..i], [head[i]]);
      assert PosElements([head[i]]) == if head[i] != WILDCARD then [head[i]] else [];
    }
    assert head[..|head|] == head;
  }
}
