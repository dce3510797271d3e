/** Training at a parse and the codec's round trip (NewCorpusCodec): which messages come back
    from what they encode to, and which do not. */
module CorpusCodec {
  import opened Bytes
  import opened Unicode
  import opened Placeholder
  import opened GreedyMatch
  import opened Pieces
  import opened Tokens
  import opened TokenRecord
  import opened Splitting
  import opened Template
  import opened Sorting
  import opened Tokenize
  import opened Decoding
  import opened Training
  import Interner
  import Parser
  import Matcher
  import MatcherSpec

  /** The message is encodable and decodes to itself. */
  ghost predicate RoundTrips(codec: Codec, msg: Str) {
    && Encode(codec, msg).Some?
    && Decoded(codec.templates, Encode(codec, msg).value.templateID, Encode(codec, msg).value.args) == Some(msg)
  }

  /** The corpus that a parse hands to training: its masks, and the table of its templates. */
  ghost predicate ParsedCorpus(cfg: Parser.Config, t: Corpus, run: Parser.Run, clusters: seq<int>, sets: seq<seq<Str>>)
    requires Parser.ConfigOk(cfg)
  {
    && Parser.ParseOk(cfg, t.messages, run, clusters, sets, t.masks, true, true)
    && Matcher.TableOf(t.byID, Matcher.Kept(Matcher.Flattened(sets))) && CorpusOk(t)
  }

  ghost predicate AllLiteralsFree(t: Corpus)
    requires |t.masks| == |t.messages|
  {
    forall i :: 0 <= i < |t.messages| ==> FreeAt(t, i)
  }

  /** No literal run of message i contains the placeholder's text. */
  ghost predicate FreeAt(t: Corpus, i: nat)
    requires i < |t.messages| == |t.masks|
  {
    LiteralsFree(t.messages[i], t.masks[i])
  }

  // ------------------------------------------------------- what a parse gives

  /** A full-length mask of a row is readable, and reads back as the row's cut. */
  lemma RowReadsBack(cfg: Parser.Config, msg: Str, row: Row, common: set<nat>, mask: Str)
    requires Parser.ConfigOk(cfg) && Parser.RenderedFrom(cfg, msg, row, common, mask) && |mask| == |msg|
    ensures |row.toks| == |row.ids|
    ensures ValidMask(mask) && MaskCut(msg, mask) == RowCut(row, common)
    ensures Stored(msg, mask).template == RowTemplate(row, common)
    ensures Separated(MaskCut(msg, mask).parts) && Decomposes(MaskCut(msg, mask).parts, MaskCut(msg, mask).args, msg)
  {
    var t := Parser.AbstractLexer(cfg, Parser.AllPunctuation());
    hide RowMask, RowTemplate, MaskCut, RowCut, Decomposes, Join, TextOf, MessageLoses;
    TokenizeNoneEmpty(t, msg);
    TokenizeKeepsText(t, msg);
    TemplateAndMaskAgree(row, common);
    assert TextOf(row.toks) == msg;
  }

  /** The mask of a row that keeps the message's text has the message's length. */
  lemma FullMask(cfg: Parser.Config, msg: Str, row: Row, common: set<nat>, mask: Str)
    requires Parser.ConfigOk(cfg) && Parser.RenderedFrom(cfg, msg, row, common, mask)
    requires TextOf(Parser.RichTokens(cfg, msg)) == msg
    ensures |mask| == |msg|
  {
    hide RowMask, RowTemplate, MaskCut, RowCut, TextOf;
    TokenizeNoneEmpty(Parser.AbstractLexer(cfg, Parser.AllPunctuation()), msg);
    TemplateAndMaskAgree(row, common);
  }

  lemma RowIsReadable(cfg: Parser.Config, messages: seq<Str>, run: Parser.Run, clusters: seq<int>,
      sets: seq<seq<Str>>, masks: seq<Str>, i: nat)
    requires Parser.ConfigOk(cfg) && Parser.ParseOk(cfg, messages, run, clusters, sets, masks, true, true)
    requires i < |messages|
    ensures |masks| == |messages| && Readable(messages[i], masks[i])
  {
    hide Parser.ParseOk, RowMask, RowTemplate, Parser.RenderedFrom;
    var g, row, common := Parser.MaskOfMessage(cfg, messages, run, clusters, sets, masks, i);
    if |masks[i]| == |messages[i]| && clusters[i] != -1 {
      RowReadsBack(cfg, messages[i], row, common, masks[i]);
    }
  }

  /** The masks of a parse can be trained on. */
  lemma ParseGivesCorpus(cfg: Parser.Config, t: Corpus, run: Parser.Run, clusters: seq<int>, sets: seq<seq<Str>>)
    requires Parser.ConfigOk(cfg) && Parser.ParseOk(cfg, t.messages, run, clusters, sets, t.masks, true, true)
    requires t.messages != [] && MatcherSpec.Table(t.byID)
    ensures CorpusOk(t)
  {
    hide Parser.ParseOk, Readable, MatcherSpec.Table;
    RowIsReadable(cfg, t.messages, run, clusters, sets, t.masks, 0);
    forall i | 0 <= i < |t.messages| ensures Readable(t.messages[i], t.masks[i]) {
      RowIsReadable(cfg, t.messages, run, clusters, sets, t.masks, i);
    }
    forall i, j | 0 <= i < |t.messages| && 0 <= j < |t.messages| && t.messages[i] == t.messages[j]
      ensures t.masks[i] == t.masks[j]
    {
      Parser.EqualMessagesEqualMasks(cfg, t.messages, run, clusters, sets, t.masks, i, j);
    }
  }

  /** A joined template with free, separated literals is its own normal form. */
  lemma NormalTemplate(parts: seq<Str>)
    requires parts != [] && AllFree(parts) && Separated(parts)
    ensures Matcher.NormalForm(Join(parts)) == Join(parts)
  {
    SplitJoin(parts);
    SqueezedFixed(parts);
  }

  lemma TemplateKept(sets: seq<seq<Str>>, c: nat, t: Str)
    requires c < |sets| && t in sets[c] && Matcher.NormalForm(t) == t
    ensures t in Matcher.Kept(Matcher.Flattened(sets))
  {
    hide Matcher.NormalForm, Matcher.Flattened;
    Matcher.InFlattened(sets, c, t);
    var flat := Matcher.Flattened(sets);
    var i :| 0 <= i < |flat| && flat[i] == t;
    Matcher.KeptHasAll(flat, |flat|, i);
  }

  lemma KeptInTable(byID: seq<Compiled>, kept: seq<Str>, t: Str) returns (id: nat)
    requires Matcher.TableOf(byID, kept) && t in kept
    ensures id < |byID| && byID[id] == CompiledFor(id, t) && t in TableTemplates(byID)
  {
    id :| 0 <= id < |kept| && kept[id] == t;
    assert byID[id].template == t;
  }

  /** When all rows are used for patterns, a clustered message with a full mask and free literals
      finds its own template in the table. */
  lemma OwnTemplateInTable(cfg: Parser.Config, t: Corpus, run: Parser.Run, clusters: seq<int>, sets: seq<seq<Str>>, i: nat)
    returns (id: nat)
    requires Parser.ConfigOk(cfg) && ParsedCorpus(cfg, t, run, clusters, sets) && cfg.patternSample >= 1.0
    requires i < |t.messages| == |clusters| && clusters[i] != -1 && |t.masks[i]| == |t.messages[i]| && FreeAt(t, i)
    ensures id < |t.byID| && t.byID[id] == CompiledFor(id, StoredAt(t, i).template)
    ensures t.byID[id].parts == MaskCut(t.messages[i], t.masks[i]).parts
    ensures StoredAt(t, i).template in TableTemplates(t.byID)
  {
    hide Parser.ParseOk, MaskCut, Join, Matcher.NormalForm, Matcher.Kept, Matcher.Flattened, RowMask, RowTemplate;
    hide Matcher.TableOf, CorpusOk, Parser.RenderedFrom, Split;
    var g, row, common := Parser.MaskOfMessage(cfg, t.messages, run, clusters, sets, t.masks, i);
    RowReadsBack(cfg, t.messages[i], row, common, t.masks[i]);
    var parts := MaskCut(t.messages[i], t.masks[i]).parts;
    NormalTemplate(parts);
    TemplateKept(sets, clusters[i], Join(parts));
    id := KeptInTable(t.byID, Matcher.Kept(Matcher.Flattened(sets)), Join(parts));
    SplitJoin(parts);
  }

  /** A clustered message with a full mask and free literals is matched by its own template, unless
      the scan meets a literal right where an argument would have to start; and that template
      is a candidate unless it is the lone placeholder. */
  lemma OwnTemplateHit(cfg: Parser.Config, t: Corpus, run: Parser.Run, clusters: seq<int>, sets: seq<seq<Str>>, i: nat)
    returns (id: nat)
    requires Parser.ConfigOk(cfg) && ParsedCorpus(cfg, t, run, clusters, sets) && cfg.patternSample >= 1.0
    requires i < |t.messages| == |clusters| && clusters[i] != -1 && |t.masks[i]| == |t.messages[i]| && FreeAt(t, i)
    ensures id < |t.byID| && t.byID[id].template == StoredAt(t, i).template && |t.byID[id].parts| > 0
    ensures MatcherSpec.Hit(t.byID, t.messages[i], id) <==> !MeetsGapZero(t.byID[id].parts, t.messages[i])
    ensures (MatcherSpec.Candidate(t.byID, t.messages[i], id)
             <==> !MeetsGapZero(t.byID[id].parts, t.messages[i]) && StoredAt(t, i).template != PLACEHOLDER)
  {
    id := OwnTemplateInTable(cfg, t, run, clusters, sets, i);
    hide Parser.ParseOk, MaskCut, Decomposes, MatchOf, MeetsGapZero, RowTemplate, RowCut, Parser.RenderedFrom, Stored;
    var g, row, common := Parser.MaskOfMessage(cfg, t.messages, run, clusters, sets, t.masks, i);
    RowReadsBack(cfg, t.messages[i], row, common, t.masks[i]);
    MatchIff(t.byID[id].parts, t.messages[i]);
  }

  // ------------------------------------------------------------ round trips

  /** What becomes of message i, whatever the masks: stored under its own template it comes back iff
      its literal runs are free of the placeholder's text; otherwise it comes back iff its own
      arguments fill the best match to it. */
  lemma EntryMeaning(codec: Codec, t: Corpus, i: nat)
    requires |t.masks| == |t.messages| && Trained(codec, t) && i < |t.messages|
    ensures ChosenAt(t, i) == StoredAt(t, i).template ==> (RoundTrips(codec, t.messages[i]) <==> FreeAt(t, i))
    ensures var parts := Split(ChosenAt(t, i));
      RoundTrips(codec, t.messages[i]) <==>
        |parts| == |StoredAt(t, i).args| + 1 && Fill(parts, StoredAt(t, i).args) == t.messages[i]
  {
    hide ChosenAt, Stored, LiteralsFree, Split, Fill;
    assert TrainedAt(codec, t, i);
    var e := codec.entries[t.messages[i]];
    if ChosenAt(t, i) == StoredAt(t, i).template {
      DecodesIff(codec.templates, e.templateID, t.messages[i], t.masks[i]);
    }
  }

  /** When all rows are used for patterns, messages with free literals are stored with their
      own templates. */
  lemma FreeIsOwn(cfg: Parser.Config, t: Corpus, run: Parser.Run, clusters: seq<int>, sets: seq<seq<Str>>, i: nat)
    requires Parser.ConfigOk(cfg) && ParsedCorpus(cfg, t, run, clusters, sets) && cfg.patternSample >= 1.0
    requires i < |t.messages| == |t.masks| && FreeAt(t, i)
    ensures ChosenAt(t, i) == StoredAt(t, i).template
  {
    hide Parser.ParseOk, Matcher.TableOf, LiteralsFree, KnownAt, Stored, MatcherSpec.Table, Readable, Parser.RenderedFrom;
    OwnTemplateIff(t, i);
    if !RegistersAt(t, i) {
      var g, row, common := Parser.MaskOfMessage(cfg, t.messages, run, clusters, sets, t.masks, i);
      if clusters[i] != -1 {
        var id := OwnTemplateInTable(cfg, t, run, clusters, sets, i);
        TableIsKnown(t, i);
      } else {
        EmptyIsOwn(t, i);
      }
    }
  }

  /** An empty message is matched by the empty template only, which is its own. */
  lemma EmptyIsOwn(t: Corpus, i: nat)
    requires MatcherSpec.Table(t.byID) && i < |t.messages| == |t.masks| && t.masks[i] == [] == t.messages[i]
    ensures ChosenAt(t, i) == StoredAt(t, i).template
  {
    var best := Matcher.AnswerOf(t.byID, t.messages[i]);
    AnswerInTable(t.byID, t.messages[i]);
    EmptyTemplate(t.masks[i]);
    if best != -1 {
      EmptyMatch(t.byID, best);
    }
  }

  lemma EmptyTemplate(mask: Str)
    requires mask == []
    ensures Stored([], mask).template == []
  {
    EmptyRendering([], mask);
    var none: Str := [];
    assert none[..0] == none && mask[..0] == mask;
  }

  /** No template but the empty one matches the empty message. */
  lemma EmptyMatch(byID: seq<Compiled>, id: int)
    requires MatcherSpec.Table(byID) && MatcherSpec.Candidate(byID, [], id)
    ensures byID[id].template == []
  {
    var t := byID[id];
    assert t == CompiledFor(id, t.template);
    JoinSplit(t.template);
    MatchLength(t.parts, []);
  }

  /** Every message with free literals comes back, when all rows are used for patterns. */
  lemma FreeRoundTrips(cfg: Parser.Config, codec: Codec, t: Corpus, run: Parser.Run, clusters: seq<int>,
      sets: seq<seq<Str>>, i: nat)
    requires Parser.ConfigOk(cfg) && ParsedCorpus(cfg, t, run, clusters, sets) && cfg.patternSample >= 1.0
    requires |t.masks| == |t.messages| && Trained(codec, t) && i < |t.messages| && FreeAt(t, i)
    ensures RoundTrips(codec, t.messages[i])
  {
    hide ParsedCorpus, Trained, RoundTrips, ChosenAt, FreeAt;
    FreeIsOwn(cfg, t, run, clusters, sets, i);
    EntryMeaning(codec, t, i);
  }

  lemma WithoutMask(codec: Codec, t: Corpus, i: nat)
    requires CorpusOk(t) && Trained(codec, t) && i < |t.messages| && t.masks[i] == []
    ensures RoundTrips(codec, t.messages[i]) <==> Free(t.messages[i])
  {
    hide ChosenAt, RoundTrips, Trained;
    EntryMeaning(codec, t, i);
    if t.messages[i] != [] {
      LiteralIsOwn(t, i);
    } else {
      EmptyIsOwn(t, i);
      EmptyIsFree(t.messages[i]);
      FreeMessage(t.messages[i], t.masks[i]);
    }
  }

  /** An unclustered message comes back iff it does not contain the placeholder's text. */
  lemma UnclusteredRoundTrips(cfg: Parser.Config, codec: Codec, t: Corpus, run: Parser.Run, clusters: seq<int>,
      sets: seq<seq<Str>>, i: nat)
    requires Parser.ConfigOk(cfg) && ParsedCorpus(cfg, t, run, clusters, sets)
    requires |t.masks| == |t.messages| && Trained(codec, t) && i < |t.messages| == |clusters| && clusters[i] == -1
    ensures t.masks[i] == [] && (RoundTrips(codec, t.messages[i]) <==> Free(t.messages[i]))
  {
    hide Parser.ParseOk, Trained, RoundTrips, CorpusOk, Matcher.TableOf, Parser.RenderedFrom, Free;
    var g, row, common := Parser.MaskOfMessage(cfg, t.messages, run, clusters, sets, t.masks, i);
    WithoutMask(codec, t, i);
  }

  // ------------------------------------- messages that contain the placeholder

  /** The bytes of the placeholder's text. */
  predicate InPlaceholder(c: Byte) {
    c == '<' || c == '*' || c == '>'
  }

  /** A byte of the placeholder's text is always a token of its own. */
  ghost predicate Alone(toks: seq<Token>) {
    forall j, c: Byte :: 0 <= j < |toks| && InPlaceholder(c) && c in toks[j].slice ==> toks[j].slice == [c]
  }

  ghost predicate Avoid(texts: seq<Str>, c: Byte) {
    forall i :: 0 <= i < |texts| ==> c !in texts[i]
  }

  /** A byte whose chunks are all literal is in no parameter, and one whose chunks are all
      parameters is in no literal. */
  lemma {:induction false} ByteSide(chunks: seq<Str>, flags: seq<bool>, c: Byte, literal: bool)
    requires |chunks| == |flags| && forall j :: 0 <= j < |chunks| && c in chunks[j] ==> flags[j] == literal
    ensures literal ==> Avoid(CutOf(chunks, flags).args, c)
    ensures !literal ==> Avoid(CutOf(chunks, flags).parts, c)
  {
    if chunks != [] {
      ByteSide(chunks[..|chunks| - 1], flags[..|chunks| - 1], c, literal);
    }
  }

  /** Equal slices of a row have equal ids. */
  ghost predicate SlicesShareIds(row: Row) {
    |row.toks| == |row.ids| &&
    forall j, k :: 0 <= j < |row.toks| && 0 <= k < |row.toks| && row.toks[j].slice == row.toks[k].slice ==>
      row.ids[j] == row.ids[k]
  }

  /** A byte of the placeholder's text is on one side of a row's cut. */
  lemma RowSide(row: Row, common: set<nat>, c: Byte)
    requires SlicesShareIds(row) && Alone(row.toks) && InPlaceholder(c)
    ensures Avoid(RowCut(row, common).args, c) || Avoid(RowCut(row, common).parts, c)
  {
    hide CutOf;
    if j :| 0 <= j < |row.toks| && c in row.toks[j].slice {
      ByteSide(Slices(row), FlagsOfRow(row, common), c, row.ids[j] in common);
    } else {
      ByteSide(Slices(row), FlagsOfRow(row, common), c, true);
    }
  }

  /** If a literal run of the row contains the placeholder's text, no parameter has a byte of it. */
  lemma ParametersAvoid(row: Row, common: set<nat>, c: Byte)
    requires SlicesShareIds(row) && Alone(row.toks) && InPlaceholder(c) && !AllFree(RowCut(row, common).parts)
    ensures Avoid(RowCut(row, common).args, c)
  {
    hide RowCut;
    RowSide(row, common, c);
    var parts := RowCut(row, common).parts;
    var i :| 0 <= i < |parts| && !Free(parts[i]);
    var k :| OccursAt(parts[i], PLACEHOLDER, k);
    assert parts[i][k..k + 3][0] == '<' && parts[i][k..k + 3][1] == '*' && parts[i][k..k + 3][2] == '>';
    assert parts[i][k] == '<' && parts[i][k + 1] == '*' && parts[i][k + 2] == '>';
  }

  ghost predicate AvoidPlaceholder(texts: seq<Str>) {
    forall c: Byte :: InPlaceholder(c) ==> Avoid(texts, c)
  }

  /** Free literals around parameters without its bytes never spell the placeholder. */
  lemma {:induction false} FillIsFree(parts: seq<Str>, args: seq<Str>)
    requires |parts| == |args| + 1 && AllFree(parts) && NoEmpty(args) && AvoidPlaceholder(args)
    ensures Free(Fill(parts, args))
  {
    if args != [] {
      AllFreeCons(parts);
      assert AvoidPlaceholder(args[1..]) by {
        forall c: Byte | InPlaceholder(c) ensures Avoid(args[1..], c) {
          assert Avoid(args, c);
        }
      }
      FillIsFree(parts[1..], args[1..]);
      assert Avoid(args, '<') && Avoid(args, '*') && Avoid(args, '>');
      FreeAround(parts[0], args[0], Fill(parts[1..], args[1..]));
    }
  }

  lemma FreeAround(a: Str, b: Str, c: Str)
    requires Free(a) && Free(c) && b != [] && '<' !in b && '*' !in b && '>' !in b
    ensures Free(a + (b + c))
  {
    var s := a + (b + c);
    assert s[..|a|] == a && s[|a| + |b|..] == c;
    forall k: nat ensures !OccursAt(s, PLACEHOLDER, k) {
      if k + 3 <= |a| {
        OccursAtTake(s, |a|, PLACEHOLDER, k);
      } else if |a| + |b| <= k {
        OccursAtDrop(s, |a| + |b|, PLACEHOLDER, k - |a| - |b|);
      } else if k + 3 <= |s| {
        var at := if k >= |a| then k else |a|;
        assert s[at] == b[at - |a|] == s[k..k + 3][at - k];
      }
    }
  }

  /** A message whose literal runs contain the placeholder's text is not what any free template
      makes of its arguments. */
  lemma NoFillSpells(row: Row, common: set<nat>, msg: Str, parts: seq<Str>)
    requires SlicesShareIds(row) && Alone(row.toks)
    requires var c := RowCut(row, common);
      Decomposes(c.parts, c.args, msg) && !AllFree(c.parts) && |parts| == |c.args| + 1 && AllFree(parts)
    ensures Fill(parts, RowCut(row, common).args) != msg
  {
    hide RowCut, Avoid, AllFree;
    var c := RowCut(row, common);
    forall b: Byte | InPlaceholder(b) ensures Avoid(c.args, b) {
      ParametersAvoid(row, common, b);
    }
    FillIsFree(parts, c.args);
    if Free(msg) {
      PartsOfFree(c.parts, c.args);
    }
  }

  lemma RowSharesIds(cfg: Parser.Config, run: Parser.Run, r: nat)
    requires Parser.ConfigOk(cfg) && Parser.RichOk(cfg, run) && r < |run.richRows|
    ensures SlicesShareIds(run.richRows[r])
  {
    assert Interner.IdsFit(run.richRows[r].ids, run.richRows[r].toks, run.interner);
  }

  lemma RunIsRich(cfg: Parser.Config, t: Corpus, run: Parser.Run, clusters: seq<int>, sets: seq<seq<Str>>)
    requires Parser.ConfigOk(cfg) && ParsedCorpus(cfg, t, run, clusters, sets)
    ensures Parser.RichOk(cfg, run)
  {
  }

  /** A message that comes back has free literals, whatever template it was stored with, if the
      bytes of the placeholder's text are tokens of their own in it. */
  lemma RoundTripIsFree(cfg: Parser.Config, codec: Codec, t: Corpus, run: Parser.Run, clusters: seq<int>,
      sets: seq<seq<Str>>, i: nat)
    requires Parser.ConfigOk(cfg) && ParsedCorpus(cfg, t, run, clusters, sets)
    requires |t.masks| == |t.messages| && Trained(codec, t) && i < |t.messages|
    requires Alone(Parser.RichTokens(cfg, t.messages[i]))
    requires RoundTrips(codec, t.messages[i])
    ensures FreeAt(t, i)
  {
    hide Trained, RoundTrips, Parser.ParseOk, Parser.RichOk, Matcher.TableOf, CorpusOk, Alone, ChosenAt, MaskCut, RowCut;
    hide SlicesShareIds, Fill, Decomposes, Join, Parser.RichTokens, Split, AllFree;
    var msg, mask := t.messages[i], t.masks[i];
    EntryMeaning(codec, t, i);
    var parts := Split(ChosenAt(t, i));
    SplitIsFree(ChosenAt(t, i));
    var g, row, common := Parser.MaskOfMessage(cfg, t.messages, run, clusters, sets, t.masks, i);
    if |mask| != |msg| {
      LiteralIsOwn(t, i);
    } else if clusters[i] != -1 {
      RunIsRich(cfg, t, run, clusters, sets);
      RowSharesIds(cfg, run, run.rowOf[i]);
      RowReadsBack(cfg, msg, row, common, mask);
      if !AllFree(MaskCut(msg, mask).parts) {
        NoFillSpells(row, common, msg, parts);
      }
    } else {
      EmptyIsFree(msg);
      FreeMessage(msg, mask);
    }
  }

  lemma LiteralIsOwn(t: Corpus, i: nat)
    requires i < |t.messages| == |t.masks| && |t.masks[i]| != |t.messages[i]|
    ensures ChosenAt(t, i) == StoredAt(t, i).template
  {
  }

  lemma EmptyIsFree(msg: Str)
    requires msg == []
    ensures Free(msg)
  {
  }

  /** The round trip: when all rows are used for patterns, a message in which the bytes of the
      placeholder's text are tokens of their own comes back iff none of its literal runs
      contains that text. */
  lemma RoundTripIff(cfg: Parser.Config, codec: Codec, t: Corpus, run: Parser.Run, clusters: seq<int>,
      sets: seq<seq<Str>>, i: nat)
    requires Parser.ConfigOk(cfg) && ParsedCorpus(cfg, t, run, clusters, sets) && cfg.patternSample >= 1.0
    requires |t.masks| == |t.messages| && Trained(codec, t) && i < |t.messages|
    requires Alone(Parser.RichTokens(cfg, t.messages[i]))
    ensures RoundTrips(codec, t.messages[i]) <==> FreeAt(t, i)
  {
    hide ParsedCorpus, Trained, RoundTrips, Alone, FreeAt;
    if FreeAt(t, i) {
      FreeRoundTrips(cfg, codec, t, run, clusters, sets, i);
    }
    if RoundTrips(codec, t.messages[i]) {
      RoundTripIsFree(cfg, codec, t, run, clusters, sets, i);
    }
  }

  // ------------------------------------------------ without special patterns

  ghost predicate Plain(cfg: Parser.Config) {
    cfg.whites == [] && cfg.blacks == []
  }

  /** Without special patterns a message's tokens are its split. */
  lemma PlainTokens(cfg: Parser.Config, symbols: set<nat>, msg: Str)
    requires Parser.ConfigOk(cfg) && Plain(cfg)
    ensures Parser.RowTokens(cfg, symbols, msg) == SplitOf(Lex(cfg.tables, symbols), msg)
  {
    hide SplitOf;
    var t := Parser.AbstractLexer(cfg, symbols);
    var pre := PreTokens(t, msg);
    assert |pre| == 1;
    assert TokensOf(t.lex, pre[..0]) == [];
  }

  /** An ASCII byte is never part of a longer rune. */
  lemma {:induction false} AsciiByteRune(msg: Str, k: nat, c: Byte)
    requires k < |Runes(msg)| && c in Runes(msg)[k].text && c as int < 128
    ensures Runes(msg)[k] == Rune(c as int, [c])
    decreases |msg|
  {
    var r := DecodeRune(msg);
    if k > 0 {
      AsciiByteRune(msg[|r.text|..], k - 1, c);
    } else if At(msg, 0) >= 128 {
      HighBytes(msg);
    }
  }

  lemma HighBytes(s: Str)
    requires s != [] && At(s, 0) >= 128
    ensures forall c :: c in DecodeRune(s).text ==> c as int >= 128
  {
    var n := ValidSize(s);
    assert forall i :: 0 <= i < |DecodeRune(s).text| ==> DecodeRune(s).text[i] == s[i];
  }

  lemma {:induction false} JoinedRune(parts: seq<seq<Rune>>, j: nat, r: Rune)
    requires j < |parts| && r in parts[j]
    ensures r in Joined(parts)
  {
    if j > 0 {
      JoinedRune(parts[1..], j - 1, r);
    }
  }

  lemma {:induction false} FlatByte(rs: seq<Rune>, c: Byte) returns (k: nat)
    requires c in Flat(rs)
    ensures k < |rs| && c in rs[k].text
  {
    if c in rs[0].text {
      k := 0;
    } else {
      k := FlatByte(rs[1..], c);
      k := k + 1;
    }
  }

  /** A split symbol of ASCII is a token of its own. */
  lemma SymbolAlone(lex: Lex, msg: Str, j: nat, c: Byte)
    requires c as int < 128 && c as int in lex.symbols && j < |SplitOf(lex, msg)| && c in SplitOf(lex, msg)[j].slice
    ensures SplitOf(lex, msg)[j].slice == [c]
  {
    hide SplitRunes, Runes;
    var rs, toks := Runes(msg), SplitOf(lex, msg);
    var parts := SplitTokenizes(lex, rs);
    assert TokenFits(lex, toks[j], parts[j]);
    OneRuneFlat(parts[j]);
    var k := FlatByte(parts[j], c);
    JoinedRune(parts, j, parts[j][k]);
    var i :| 0 <= i < |rs| && rs[i] == parts[j][k];
    AsciiByteRune(msg, i, c);
    assert IsBoundary(lex, parts[j][k]);
  }

  lemma OneRuneFlat(rs: seq<Rune>)
    ensures |rs| == 1 ==> Flat(rs) == rs[0].text
  {
    if |rs| == 1 { assert rs[1..] == []; }
  }

  lemma PlainAlone(cfg: Parser.Config, msg: Str)
    requires Parser.ConfigOk(cfg) && Plain(cfg)
    ensures Alone(Parser.RichTokens(cfg, msg))
  {
    hide SplitOf;
    PlainTokens(cfg, Parser.AllPunctuation(), msg);
    var lex := Lex(cfg.tables, Parser.AllPunctuation());
    forall j, c: Byte | 0 <= j < |SplitOf(lex, msg)| && InPlaceholder(c) && c in SplitOf(lex, msg)[j].slice
      ensures SplitOf(lex, msg)[j].slice == [c]
    {
      SymbolAlone(lex, msg, j, c);
    }
  }

  // ---------------------------------------------------------------- training

  /** Training can only fail on a corpus with duplicates, and - when all rows are used for
      patterns - only if some literal run contains the placeholder's text. */
  lemma TrainingSucceeds(cfg: Parser.Config, t: Corpus, run: Parser.Run, clusters: seq<int>, sets: seq<seq<Str>>)
    requires Parser.ConfigOk(cfg) && ParsedCorpus(cfg, t, run, clusters, sets) && |t.masks| == |t.messages|
    requires Distinct(t.messages) || (cfg.patternSample >= 1.0 && AllLiteralsFree(t))
    ensures !Clash(t)
  {
    hide ChosenAt, Parser.ParseOk, Matcher.TableOf, CorpusOk, StoredAt, FreeAt;
    if !Distinct(t.messages) {
      forall i | 0 <= i < |t.messages| ensures ChosenAt(t, i) == StoredAt(t, i).template {
        assert FreeAt(t, i);
        FreeIsOwn(cfg, t, run, clusters, sets, i);
      }
    }
    NoClash(t);
  }

  /** A corpus without the placeholder's text has free literals. */
  lemma FreeCorpus(t: Corpus)
    requires |t.masks| == |t.messages| && forall i :: 0 <= i < |t.messages| ==> Free(t.messages[i])
    ensures AllLiteralsFree(t)
  {
    hide LiteralsFree, Free;
    forall i | 0 <= i < |t.messages| ensures FreeAt(t, i) {
      FreeMessage(t.messages[i], t.masks[i]);
    }
  }

  /** NewCorpusCodec: training fails exactly when copies of a message clash; otherwise the codec
      knows exactly the messages, each with its chosen template and its own arguments. When all
      rows are used for patterns, messages with free literals come back - without special patterns
      they and no others -, clustered or not, duplicate or empty, and also where special patterns
      lose text. Training succeeds on distinct messages and, when all rows are used, on
      messages without the placeholder's text. */
  method NewCorpusCodec(cfg: Parser.Config, messages: seq<Str>, ghost vocabulary: set<Str>)
    returns (r: Result<Codec>, ghost t: Corpus, ghost run: Parser.Run, ghost clusters: seq<int>, ghost sets: seq<seq<Str>>)
    requires Parser.ConfigOk(cfg) && |messages| <= MAX_INT32
    requires Parser.CoversSlices(cfg, messages, vocabulary) && |vocabulary| <= UINT32
    ensures messages == [] ==> r == Ok(Codec([], map[]))
    ensures t.messages == messages && |t.masks| == |messages|
    ensures messages != [] ==> ParsedCorpus(cfg, t, run, clusters, sets)
    ensures r.Ok? <==> !Clash(t)
    ensures r.Ok? ==> Trained(r.value, t)
    ensures Distinct(messages) ==> r.Ok?
    ensures r.Ok? && cfg.patternSample >= 1.0 ==>
      forall i :: 0 <= i < |messages| && FreeAt(t, i) ==> RoundTrips(r.value, messages[i])
    ensures r.Ok? && cfg.patternSample >= 1.0 && Plain(cfg) ==>
      forall i :: 0 <= i < |messages| ==> (RoundTrips(r.value, messages[i]) <==> FreeAt(t, i))
    ensures cfg.patternSample >= 1.0 && (forall i :: 0 <= i < |messages| ==> Free(messages[i])) ==>
      r.Ok? && forall i :: 0 <= i < |messages| ==> RoundTrips(r.value, messages[i])
  {
    hide RoundTrips, LiteralsFree, Parser.ParseOk, Parser.CoversSlices, Matcher.TableOf, Free, CorpusOk, Clash, Trained;
    hide MatcherSpec.Table, Matcher.Matcher.Valid, Plain, FreeAt;
    if |messages| == 0 {
      r, t := Ok(Codec([], map[])), Corpus([], messages, []);
      clusters, sets, run := [], [], Parser.NoRun();
      NothingClashes(r.value, t);
      return;
    }
    var clusterIDs, templateSets, masks, parsed := Parser.Parse(cfg, messages, true, true, vocabulary);
    var matcher := Matcher.NewMatcherFromTemplateSets(templateSets);
    run, clusters, sets, t := parsed, clusterIDs, templateSets, Corpus(matcher.byID, messages, masks);
    ValidTable(matcher);
    ParseGivesCorpus(cfg, t, run, clusters, sets);
    CorpusLengths(t);
    r := Train(messages, masks, matcher, t);
    if Distinct(messages) {
      TrainingSucceeds(cfg, t, run, clusters, sets);
    }
    if cfg.patternSample >= 1.0 && forall i :: 0 <= i < |messages| ==> Free(messages[i]) {
      FreeCorpus(t);
      TrainingSucceeds(cfg, t, run, clusters, sets);
    }
    if r.Ok? && cfg.patternSample >= 1.0 {
      RoundTripsOf(cfg, r.value, t, run, clusters, sets);
    }
  }

  lemma RoundTripsOf(cfg: Parser.Config, codec: Codec, t: Corpus, run: Parser.Run, clusters: seq<int>,
      sets: seq<seq<Str>>)
    requires Parser.ConfigOk(cfg) && ParsedCorpus(cfg, t, run, clusters, sets) && cfg.patternSample >= 1.0
    requires |t.masks| == |t.messages| && Trained(codec, t)
    ensures forall i :: 0 <= i < |t.messages| && FreeAt(t, i) ==> RoundTrips(codec, t.messages[i])
    ensures Plain(cfg) ==> forall i :: 0 <= i < |t.messages| ==> (RoundTrips(codec, t.messages[i]) <==> FreeAt(t, i))
  {
    hide ParsedCorpus, Trained, RoundTrips, FreeAt, Plain, Parser.RichTokens, Alone;
    forall i | 0 <= i < |t.messages|
      ensures FreeAt(t, i) ==> RoundTrips(codec, t.messages[i])
      ensures Plain(cfg) ==> (RoundTrips(codec, t.messages[i]) <==> FreeAt(t, i))
    {
      if FreeAt(t, i) {
        FreeRoundTrips(cfg, codec, t, run, clusters, sets, i);
      }
      if Plain(cfg) {
        PlainAlone(cfg, t.messages[i]);
        RoundTripIff(cfg, codec, t, run, clusters, sets, i);
      }
    }
  }

  lemma ValidTable(matcher: Matcher.Matcher)
    requires matcher.Valid()
    ensures MatcherSpec.Table(matcher.byID) && Matcher.TableOf(matcher.byID, matcher.templates)
  {
  }

  lemma NothingClashes(codec: Codec, t: Corpus)
    requires codec == Codec([], map[]) && t.messages == [] && t.masks == []
    ensures !Clash(t) && Trained(codec, t)
  {
  }
}
