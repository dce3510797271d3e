/** The codec's round trip without special patterns, read off the messages: a clustered message
    that contains the placeholder's text comes back exactly if its cluster does not agree on all
    bytes of that text. */
module PlainCodec {
  import opened Bytes
  import opened Unicode
  import opened Placeholder
  import opened GreedyMatch
  import opened Pieces
  import opened Tokens
  import opened TokenRecord
  import opened Splitting
  import opened Grouping
  import opened Clusters
  import opened Template
  import opened Decoding
  import opened Training
  import opened CorpusCodec
  import opened Outcomes
  import Parser
  import Matcher

  // --------------------------------------------------- the placeholder's bytes

  lemma {:induction false} ByteOfToken(toks: seq<Token>, c: Byte) returns (k: nat)
    requires c in TextOf(toks)
    ensures k < |toks| && c in toks[k].slice
  {
    if c in toks[0].slice {
      k := 0;
    } else {
      k := ByteOfToken(toks[1..], c);
      k := k + 1;
    }
  }

  lemma {:induction false} TokenByte(toks: seq<Token>, k: nat, c: Byte)
    requires k < |toks| && c in toks[k].slice
    ensures c in TextOf(toks)
  {
    if k > 0 {
      TokenByte(toks[1..], k - 1, c);
    }
  }

  /** The token of one byte of the placeholder's text. */
  function PlaceholderToken(c: Byte): Token {
    Token(Symbolic, [c])
  }

  lemma PlainText(cfg: Parser.Config, msg: Str)
    requires Parser.ConfigOk(cfg) && Plain(cfg)
    ensures TextOf(Parser.RichTokens(cfg, msg)) == msg
  {
    PlainTokens(cfg, Parser.AllPunctuation(), msg);
    SplitOfText(Lex(cfg.tables, Parser.AllPunctuation()), msg);
  }

  lemma ByteIsSymbol(lex: Lex, c: Byte)
    requires InPlaceholder(c) && c as int in lex.symbols
    ensures TokenOfSlice(lex, [c]) == PlaceholderToken(c)
  {
    AsciiRune([c]);
    assert [c][1..] == [] && [c][..1] == [c];
    assert Runes([c]) == [Rune(c as int, [c])] + Runes([]);
  }

  /** A message contains a byte of the placeholder's text iff that byte is one of its rich tokens. */
  lemma ByteIsToken(cfg: Parser.Config, msg: Str, c: Byte)
    requires Parser.ConfigOk(cfg) && Plain(cfg) && InPlaceholder(c)
    ensures c in msg <==> PlaceholderToken(c) in Parser.RichTokens(cfg, msg)
    ensures forall tok :: tok in Parser.RichTokens(cfg, msg) && c in tok.slice ==> tok == PlaceholderToken(c)
  {
    hide SplitOf, TextOf;
    var lex, toks := Lex(cfg.tables, Parser.AllPunctuation()), Parser.RichTokens(cfg, msg);
    PlainTokens(cfg, Parser.AllPunctuation(), msg);
    PlainText(cfg, msg);
    ByteIsSymbol(lex, c);
    hide TokenOfSlice, InPlaceholder, Parser.RowTokens;
    forall tok | tok in toks && c in tok.slice ensures tok == PlaceholderToken(c) {
      var j :| 0 <= j < |toks| && toks[j] == tok;
      ByteAlone(cfg, msg, j, c);
      SplitTellsKind(lex, msg, tok);
    }
    if c in msg {
      var k := ByteOfToken(toks, c);
    }
    if PlaceholderToken(c) in toks {
      var k :| 0 <= k < |toks| && toks[k] == PlaceholderToken(c);
      TokenByte(toks, k, c);
    }
  }

  lemma ByteAlone(cfg: Parser.Config, msg: Str, j: nat, c: Byte)
    requires Parser.ConfigOk(cfg) && Plain(cfg) && InPlaceholder(c)
    requires j < |Parser.RichTokens(cfg, msg)| && c in Parser.RichTokens(cfg, msg)[j].slice
    ensures Parser.RichTokens(cfg, msg)[j].slice == [c]
  {
    PlainAlone(cfg, msg);
  }

  // -------------------------------------------------------- which are common

  /** The rich row of a message. */
  ghost predicate RichRowOf(cfg: Parser.Config, row: Row, msg: Str)
    requires Parser.ConfigOk(cfg)
  {
    |row.ids| == |row.toks| && row.toks == Parser.RichTokens(cfg, msg)
  }

  /** The id of a byte's token is a candidate of exactly the rows whose message has the byte. */
  lemma ByteCandidate(cfg: Parser.Config, rows: seq<Row>, r: nat, k: nat, q: nat, msg: Str, c: Byte)
    requires Parser.ConfigOk(cfg) && Plain(cfg) && InPlaceholder(c) && Told(rows)
    requires r < |rows| && k < |rows[r].toks| && rows[r].toks[k] == PlaceholderToken(c)
    requires q < |rows| && RichRowOf(cfg, rows[q], msg)
    ensures |rows[r].ids| == |rows[r].toks|
    ensures rows[r].ids[k] in Candidates(rows[q], cfg.filter) <==> c in msg
  {
    ByteIsToken(cfg, msg, c);
    hide InPlaceholder, Parser.RowTokens;
    if c in msg {
      var j :| 0 <= j < |rows[q].toks| && rows[q].toks[j] == PlaceholderToken(c);
      assert rows[q].ids[j] == rows[r].ids[k];
      assert CommonCandidate(rows[q].toks[j], cfg.filter);
    }
    if rows[r].ids[k] in Candidates(rows[q], cfg.filter) {
      var j :| 0 <= j < |rows[q].toks| && rows[q].ids[j] == rows[r].ids[k];
      assert rows[q].toks[j].slice == [c] && rows[q].toks[j] in rows[q].toks;
    }
  }

  /** All messages of message i's cluster contain the byte. */
  ghost predicate ClusterHas(messages: seq<Str>, clusters: seq<int>, i: nat, c: Byte)
    requires i < |messages| == |clusters|
  {
    forall h: nat :: h < |messages| && clusters[h] == clusters[i] ==> c in messages[h]
  }

  // ------------------------------------------------------ when literals are free

  /** Every row of the group is the rich row of a message of i's cluster, and conversely. */
  ghost predicate RowsOfCluster(cfg: Parser.Config, messages: seq<Str>, clusters: seq<int>, rows: seq<Row>,
      ids: seq<nat>, i: nat)
    requires Parser.ConfigOk(cfg) && i < |messages| == |clusters|
  {
    && RowsBelow(ids, |rows|)
    && (forall r :: r in ids ==>
          exists h: nat :: h < |messages| && clusters[h] == clusters[i] && RichRowOf(cfg, rows[r], messages[h]))
    && (forall h: nat :: h < |messages| && clusters[h] == clusters[i] ==>
          exists r :: r in ids && RichRowOf(cfg, rows[r], messages[h]))
  }

  lemma EveryRowHas(cfg: Parser.Config, messages: seq<Str>, clusters: seq<int>, rows: seq<Row>, ids: seq<nat>, i: nat,
      r: nat, k: nat, c: Byte, q: nat)
    requires Parser.ConfigOk(cfg) && Plain(cfg) && InPlaceholder(c) && Told(rows)
    requires i < |messages| == |clusters| && RowsOfCluster(cfg, messages, clusters, rows, ids, i)
    requires r < |rows| && k < |rows[r].toks| && rows[r].toks[k] == PlaceholderToken(c) && |rows[r].ids| == |rows[r].toks|
    requires ClusterHas(messages, clusters, i, c) && q in ids
    ensures q < |rows| && |rows[q].ids| == |rows[q].toks| && rows[r].ids[k] in Candidates(rows[q], cfg.filter)
  {
    hide Candidates, InPlaceholder, RichRowOf, Plain;
    var h: nat :| h < |messages| && clusters[h] == clusters[i] && RichRowOf(cfg, rows[q], messages[h]);
    hide RowsOfCluster;
    ByteCandidate(cfg, rows, r, k, q, messages[h], c);
  }

  lemma MessageHas(cfg: Parser.Config, messages: seq<Str>, clusters: seq<int>, rows: seq<Row>, ids: seq<nat>, i: nat,
      r: nat, k: nat, c: Byte, h: nat)
    requires Parser.ConfigOk(cfg) && Plain(cfg) && InPlaceholder(c) && Told(rows)
    requires i < |messages| == |clusters| && RowsOfCluster(cfg, messages, clusters, rows, ids, i)
    requires r < |rows| && k < |rows[r].toks| && rows[r].toks[k] == PlaceholderToken(c) && |rows[r].ids| == |rows[r].toks|
    requires CandidateOfAll(rows, ids, cfg.filter, rows[r].ids[k])
    requires h < |messages| && clusters[h] == clusters[i]
    ensures c in messages[h]
  {
    hide Candidates, InPlaceholder, RichRowOf, Plain;
    var q :| q in ids && RichRowOf(cfg, rows[q], messages[h]);
    hide RowsOfCluster;
    ByteCandidate(cfg, rows, r, k, q, messages[h], c);
  }

  /** The id of a byte's token is common to the group iff all messages of the cluster have the byte. */
  lemma ByteCommon(cfg: Parser.Config, messages: seq<Str>, clusters: seq<int>, rows: seq<Row>, ids: seq<nat>, i: nat,
      r: nat, k: nat, c: Byte)
    requires Parser.ConfigOk(cfg) && Plain(cfg) && InPlaceholder(c) && Told(rows)
    requires i < |messages| == |clusters| && RowsOfCluster(cfg, messages, clusters, rows, ids, i)
    requires r < |rows| && k < |rows[r].toks| && rows[r].toks[k] == PlaceholderToken(c) && ids != []
    ensures |rows[r].ids| == |rows[r].toks|
    ensures forall x :: 0 <= x < |ids| ==> |RowsAt(ids, rows)[x].toks| == |RowsAt(ids, rows)[x].ids|
    ensures rows[r].ids[k] in CommonIds(RowsAt(ids, rows), cfg.filter) <==> ClusterHas(messages, clusters, i, c)
  {
    assert |rows[r].ids| == |rows[r].toks| && RowsBelow(ids, |rows|);
    hide *;
    CommonToAll(rows, ids, cfg.filter, rows[r].ids[k]);
    if ClusterHas(messages, clusters, i, c) {
      AllRowsHave(cfg, messages, clusters, rows, ids, i, r, k, c);
    }
    if CandidateOfAll(rows, ids, cfg.filter, rows[r].ids[k]) {
      AllMessagesHave(cfg, messages, clusters, rows, ids, i, r, k, c);
    }
  }

  lemma AllRowsHave(cfg: Parser.Config, messages: seq<Str>, clusters: seq<int>, rows: seq<Row>, ids: seq<nat>, i: nat,
      r: nat, k: nat, c: Byte)
    requires Parser.ConfigOk(cfg) && Plain(cfg) && InPlaceholder(c) && Told(rows)
    requires i < |messages| == |clusters| && RowsOfCluster(cfg, messages, clusters, rows, ids, i)
    requires r < |rows| && k < |rows[r].toks| && rows[r].toks[k] == PlaceholderToken(c) && |rows[r].ids| == |rows[r].toks|
    requires ClusterHas(messages, clusters, i, c)
    ensures CandidateOfAll(rows, ids, cfg.filter, rows[r].ids[k])
  {
    hide Candidates, InPlaceholder, RowsOfCluster, Told, Plain, ClusterHas;
    forall q | q in ids
      ensures q < |rows| && |rows[q].ids| == |rows[q].toks| && rows[r].ids[k] in Candidates(rows[q], cfg.filter)
    {
      EveryRowHas(cfg, messages, clusters, rows, ids, i, r, k, c, q);
    }
  }

  lemma AllMessagesHave(cfg: Parser.Config, messages: seq<Str>, clusters: seq<int>, rows: seq<Row>, ids: seq<nat>, i: nat,
      r: nat, k: nat, c: Byte)
    requires Parser.ConfigOk(cfg) && Plain(cfg) && InPlaceholder(c) && Told(rows)
    requires i < |messages| == |clusters| && RowsOfCluster(cfg, messages, clusters, rows, ids, i)
    requires r < |rows| && k < |rows[r].toks| && rows[r].toks[k] == PlaceholderToken(c) && |rows[r].ids| == |rows[r].toks|
    requires CandidateOfAll(rows, ids, cfg.filter, rows[r].ids[k])
    ensures ClusterHas(messages, clusters, i, c)
  {
    hide Candidates, InPlaceholder, RowsOfCluster, Told, Plain, CandidateOfAll;
    forall h: nat | h < |messages| && clusters[h] == clusters[i] ensures c in messages[h] {
      MessageHas(cfg, messages, clusters, rows, ids, i, r, k, c, h);
    }
  }

  /** All tokens with a byte of the placeholder's text are literal, or all are parameters. */
  lemma ByteIsLiteral(cfg: Parser.Config, messages: seq<Str>, clusters: seq<int>, rows: seq<Row>, ids: seq<nat>, i: nat,
      r: nat, c: Byte, common: set<nat>)
    requires Parser.ConfigOk(cfg) && Plain(cfg) && InPlaceholder(c) && Told(rows) && ids != []
    requires i < |messages| == |clusters| && RowsOfCluster(cfg, messages, clusters, rows, ids, i)
    requires r < |rows| && RichRowOf(cfg, rows[r], messages[i])
    requires forall x :: 0 <= x < |ids| ==> |RowsAt(ids, rows)[x].toks| == |RowsAt(ids, rows)[x].ids|
    requires common == CommonIds(RowsAt(ids, rows), cfg.filter)
    ensures ClusterHas(messages, clusters, i, c) ==> Avoid(RowCut(rows[r], common).args, c)
    ensures !ClusterHas(messages, clusters, i, c) ==> Avoid(RowCut(rows[r], common).parts, c)
  {
    hide InPlaceholder, Told, RowsOfCluster, CommonIds, ClusterHas, Avoid, CutOf;
    ByteIsToken(cfg, messages[i], c);
    var row := rows[r];
    forall j | 0 <= j < |row.toks| && c in Slices(row)[j]
      ensures FlagsOfRow(row, common)[j] == ClusterHas(messages, clusters, i, c)
    {
      assert row.toks[j] in row.toks;
      ByteCommon(cfg, messages, clusters, rows, ids, i, r, j, c);
    }
    ByteSide(Slices(row), FlagsOfRow(row, common), c, ClusterHas(messages, clusters, i, c));
  }

  /** All messages of the cluster have all bytes of the placeholder's text. */
  ghost predicate ClusterSpells(messages: seq<Str>, clusters: seq<int>, i: nat)
    requires i < |messages| == |clusters|
  {
    ClusterHas(messages, clusters, i, '<') && ClusterHas(messages, clusters, i, '*') && ClusterHas(messages, clusters, i, '>')
  }

  lemma AvoidedIsFree(parts: seq<Str>, c: Byte)
    requires InPlaceholder(c) && Avoid(parts, c)
    ensures AllFree(parts)
  {
    forall p | 0 <= p < |parts| ensures Free(parts[p]) {
      forall k ensures !OccursAt(parts[p], PLACEHOLDER, k) {
        if 0 <= k && k + 3 <= |parts[p]| {
          var s := parts[p][k..k + 3];
          assert parts[p][k] == s[0] && parts[p][k + 1] == s[1] && parts[p][k + 2] == s[2];
        }
      }
    }
  }

  /** A cut of the message with non-empty parameters: its literals are free iff the message is or
      some byte of the placeholder's text is no literal. */
  lemma CutIsFree(parts: seq<Str>, args: seq<Str>, msg: Str, all: bool, missing: Byte)
    requires Decomposes(parts, args, msg)
    requires all ==> AvoidPlaceholder(args)
    requires !all ==> InPlaceholder(missing) && Avoid(parts, missing)
    ensures AllFree(parts) <==> Free(msg) || !all
  {
    hide AllFree, Avoid;
    if Free(msg) {
      PartsOfFree(parts, args);
    }
    if !all {
      AvoidedIsFree(parts, missing);
    } else if AllFree(parts) {
      FillIsFree(parts, args);
    }
  }

  lemma RichFacts(cfg: Parser.Config, t: Corpus, run: Parser.Run, clusters: seq<int>, sets: seq<seq<Str>>)
    requires Parser.ConfigOk(cfg) && ParsedCorpus(cfg, t, run, clusters, sets)
    ensures Parser.RichOk(cfg, run) && Parser.PrimaryOk(cfg, t.messages, run) && Told(run.richRows)
  {
    hide Told, CorpusOk;
    RichTold(cfg, t.messages, run);
  }

  lemma GroupRowsOfCluster(cfg: Parser.Config, t: Corpus, run: Parser.Run, clusters: seq<int>, sets: seq<seq<Str>>,
      i: nat, g: nat)
    requires Parser.ConfigOk(cfg) && ParsedCorpus(cfg, t, run, clusters, sets)
    requires i < |t.messages| == |clusters| && |run.rowOf| == |t.messages| && g < |run.groups|
    requires RowsBelow(run.rowOf, |Parser.RunSets(cfg, run)|) && RowsBelow(run.groups[g].rows, |run.richRows|)
    requires InGroup(run.groups, Parser.RunSets(cfg, run), run.rowOf, i, g)
    ensures RowsOfCluster(cfg, t.messages, clusters, run.richRows, run.groups[g].rows, i)
  {
    hide Parser.ParseOk, CorpusOk, Matcher.TableOf, InGroup, Parser.RichOk, Parser.PrimaryOk, Parser.RowTokens;
    RichFacts(cfg, t, run, clusters, sets);
    GroupIsCluster(cfg, t.messages, run, clusters, sets, t.masks, i, g);
    hide ParsedCorpus;
    forall h: nat | h < |t.messages|
      ensures run.rowOf[h] < |run.richRows| && RichRowOf(cfg, run.richRows[run.rowOf[h]], t.messages[h])
    {
      RichRowAt(cfg, t.messages, run, h);
    }
  }

  /** The row's literals are free iff the message is, or some message of the cluster lacks a byte. */
  lemma BytesDecide(cfg: Parser.Config, messages: seq<Str>, clusters: seq<int>, rows: seq<Row>, ids: seq<nat>, i: nat,
      r: nat, common: set<nat>)
    requires Parser.ConfigOk(cfg) && Plain(cfg) && Told(rows) && ids != []
    requires i < |messages| == |clusters| && RowsOfCluster(cfg, messages, clusters, rows, ids, i)
    requires r < |rows| && RichRowOf(cfg, rows[r], messages[i])
    requires forall x :: 0 <= x < |ids| ==> |RowsAt(ids, rows)[x].toks| == |RowsAt(ids, rows)[x].ids|
    requires common == CommonIds(RowsAt(ids, rows), cfg.filter)
    requires Decomposes(RowCut(rows[r], common).parts, RowCut(rows[r], common).args, messages[i])
    ensures AllFree(RowCut(rows[r], common).parts) <==> Free(messages[i]) || !ClusterSpells(messages, clusters, i)
  {
    hide Told, RowsOfCluster, CommonIds, ClusterHas, Avoid, RowCut, Decomposes, AllFree, Free, Plain;
    var cut := RowCut(rows[r], common);
    forall c: Byte | InPlaceholder(c)
      ensures ClusterHas(messages, clusters, i, c) ==> Avoid(cut.args, c)
      ensures !ClusterHas(messages, clusters, i, c) ==> Avoid(cut.parts, c)
    {
      ByteIsLiteral(cfg, messages, clusters, rows, ids, i, r, c, common);
    }
    var all := ClusterSpells(messages, clusters, i);
    var missing: Byte :=
      if !ClusterHas(messages, clusters, i, '<') then '<' else if !ClusterHas(messages, clusters, i, '*') then '*' else '>';
    CutIsFree(cut.parts, cut.args, messages[i], all, missing);
  }

  /** Without special patterns and with all rows used: the literals of a clustered message are free
      iff the message is, or some message of its cluster lacks a byte of the placeholder's text. */
  lemma ClusteredFreeIff(cfg: Parser.Config, t: Corpus, run: Parser.Run, clusters: seq<int>, sets: seq<seq<Str>>, i: nat)
    requires Parser.ConfigOk(cfg) && ParsedCorpus(cfg, t, run, clusters, sets) && Plain(cfg) && cfg.patternSample >= 1.0
    requires i < |t.messages| == |clusters| == |t.masks| && clusters[i] != -1
    ensures FreeAt(t, i) <==> Free(t.messages[i]) || !ClusterSpells(t.messages, clusters, i)
  {
    hide Parser.ParseOk, CorpusOk, Matcher.TableOf, Told, RowsOfCluster, CommonIds, Parser.RowTokens, ClusterHas;
    hide Plain, Avoid;
    hide RowCut, MaskCut, Decomposes, RowTemplate, RowMask, Parser.RichOk, Parser.PrimaryOk, Free, AllFree, Stored;
    hide Separated;
    var g, row, common := Parser.MaskOfMessage(cfg, t.messages, run, clusters, sets, t.masks, i);
    RichFacts(cfg, t, run, clusters, sets);
    PlainText(cfg, t.messages[i]);
    FullMask(cfg, t.messages[i], row, common, t.masks[i]);
    RowReadsBack(cfg, t.messages[i], row, common, t.masks[i]);
    GroupRowsOfCluster(cfg, t, run, clusters, sets, i, g);
    RichRowAt(cfg, t.messages, run, i);
    AllRowsPicked(run.groups[g], run.richRows, Parser.PolicyOf(cfg, run), run.numIDs);
    BytesDecide(cfg, t.messages, clusters, run.richRows, run.groups[g].rows, i, run.rowOf[i], common);
  }

  /** The round trip, read off the messages: without special patterns and with all rows used, a
      message comes back iff it does not contain the placeholder's text, or it is clustered with a
      message that lacks a byte of that text. */
  lemma PlainRoundTripIff(cfg: Parser.Config, codec: Codec, t: Corpus, run: Parser.Run, clusters: seq<int>,
      sets: seq<seq<Str>>, i: nat)
    requires Parser.ConfigOk(cfg) && ParsedCorpus(cfg, t, run, clusters, sets) && Plain(cfg) && cfg.patternSample >= 1.0
    requires i < |t.messages| == |clusters| == |t.masks| && Trained(codec, t)
    ensures RoundTrips(codec, t.messages[i])
       <==> Free(t.messages[i]) || (clusters[i] != -1 && !ClusterSpells(t.messages, clusters, i))
  {
    hide ParsedCorpus, Trained, RoundTrips, Alone, FreeAt, Plain, Parser.RichTokens, Free, ClusterSpells;
    if clusters[i] == -1 {
      UnclusteredRoundTrips(cfg, codec, t, run, clusters, sets, i);
    } else {
      PlainAlone(cfg, t.messages[i]);
      RoundTripIff(cfg, codec, t, run, clusters, sets, i);
      ClusteredFreeIff(cfg, t, run, clusters, sets, i);
    }
  }
}
