/** Training the codec (the loop of NewCorpusCodec): which template and arguments every
    message is stored with, and when training fails. */
module Training {
  import opened Bytes
  import opened GreedyMatch
  import opened Placeholder
  import opened Sorting
  import opened Pieces
  import opened Decoding
  import Matcher
  import MatcherSpec

  // ---------------------------------------------------------- specification

  /** What the loop works on: the matcher's table, the messages and their masks. */
  datatype Corpus = Corpus(byID: seq<Compiled>, messages: seq<Str>, masks: seq<Str>)

  /** A mask of full length holds only zeros and ones. */
  predicate Readable(msg: Str, mask: Str) {
    |msg| == |mask| ==> ValidMask(mask)
  }

  /** Masks are readable, and copies of a message have the same mask. */
  ghost predicate CorpusOk(t: Corpus) {
    && MatcherSpec.Table(t.byID) && |t.masks| == |t.messages|
    && (forall i :: 0 <= i < |t.messages| ==> Readable(t.messages[i], t.masks[i]))
    && (forall i, j :: 0 <= i < |t.messages| && 0 <= j < |t.messages| && t.messages[i] == t.messages[j] ==>
          t.masks[i] == t.masks[j])
  }

  /** The message registers its own template, if need be: it is a literal, or no template of the
      table matches it. */
  ghost predicate Registers(byID: seq<Compiled>, msg: Str, mask: Str) {
    |mask| != |msg| || Matcher.AnswerOf(byID, msg) == -1
  }

  function TableTemplates(byID: seq<Compiled>): set<Str> {
    set id | 0 <= id < |byID| :: byID[id].template
  }

  /** The templates known when message i's turn comes: the table's and those registered before. */
  ghost function KnownAt(t: Corpus, i: nat): set<Str>
    requires i <= |t.messages| == |t.masks|
  {
    if i == 0 then TableTemplates(t.byID)
    else KnownAfter(t.byID, KnownAt(t, i - 1), t.messages[i - 1], t.masks[i - 1])
  }

  ghost function KnownAfter(byID: seq<Compiled>, known: set<Str>, msg: Str, mask: Str): set<Str> {
    if Registers(byID, msg, mask) then known + {Stored(msg, mask).template} else known
  }

  /** The template stored for a message: its own if it is known or registered now, and the
      best match otherwise. */
  ghost function Chosen(byID: seq<Compiled>, known: set<Str>, msg: Str, mask: Str): Str {
    var own, best := Stored(msg, mask).template, Matcher.AnswerOf(byID, msg);
    if Registers(byID, msg, mask) || own in known || !(0 <= best < |byID|) then own else byID[best].template
  }

  ghost function ChosenAt(t: Corpus, i: nat): Str
    requires i < |t.messages| == |t.masks|
  {
    Chosen(t.byID, KnownAt(t, i), t.messages[i], t.masks[i])
  }

  function StoredAt(t: Corpus, i: nat): Rendering
    requires i < |t.messages| == |t.masks|
  {
    Stored(t.messages[i], t.masks[i])
  }

  /** Two copies of a message would be stored with different templates. */
  ghost predicate Clash(t: Corpus)
    requires |t.masks| == |t.messages|
  {
    exists i, j :: 0 <= i < j < |t.messages| && t.messages[i] == t.messages[j] && ChosenAt(t, i) != ChosenAt(t, j)
  }

  ghost predicate EntryIs(templates: seq<Str>, e: Entry, template: Str, args: seq<Str>) {
    e.templateID < |templates| && templates[e.templateID] == template && e.args == args
  }

  ghost predicate TrainedAt(codec: Codec, t: Corpus, i: nat)
    requires i < |t.messages| == |t.masks|
  {
    && t.messages[i] in codec.entries
    && EntryIs(codec.templates, codec.entries[t.messages[i]], ChosenAt(t, i), StoredAt(t, i).args)
  }

  /** The codec knows exactly the messages, each with its chosen template and its own arguments. */
  ghost predicate Trained(codec: Codec, t: Corpus)
    requires |t.masks| == |t.messages|
  {
    && codec.entries.Keys == Elements(t.messages)
    && (forall i :: 0 <= i < |t.messages| ==> TrainedAt(codec, t, i))
  }

  // ------------------------------------------------------------ consequences

  ghost predicate RegistersAt(t: Corpus, i: nat)
    requires i < |t.messages| == |t.masks|
  {
    Registers(t.byID, t.messages[i], t.masks[i])
  }

  /** An earlier message registered the template. */
  ghost predicate RegisteredBefore(t: Corpus, i: nat, template: Str)
    requires i <= |t.messages| == |t.masks|
  {
    exists k :: 0 <= k < i && RegistersAt(t, k) && StoredAt(t, k).template == template
  }

  lemma RegisteredNext(t: Corpus, i: nat, template: Str)
    requires i < |t.messages| == |t.masks|
    ensures RegisteredBefore(t, i + 1, template)
        == (RegisteredBefore(t, i, template) || (RegistersAt(t, i) && StoredAt(t, i).template == template))
  {
    hide RegistersAt, StoredAt;
  }

  /** A template is known at i iff the table has it or an earlier message registered it. */
  lemma {:induction false} KnownExact(t: Corpus, i: nat, template: Str)
    requires i <= |t.messages| == |t.masks|
    ensures template in KnownAt(t, i) <==> (template in TableTemplates(t.byID) || RegisteredBefore(t, i, template))
  {
    if i > 0 {
      hide Stored, Registers, TableTemplates;
      KnownExact(t, i - 1, template);
      RegisteredNext(t, i - 1, template);
    }
  }

  lemma AnswerInTable(byID: seq<Compiled>, msg: Str)
    ensures Matcher.AnswerOf(byID, msg) == -1 || 0 <= Matcher.AnswerOf(byID, msg) < |byID|
    ensures Matcher.AnswerOf(byID, msg) != -1 ==> MatcherSpec.Best(byID, msg, Matcher.AnswerOf(byID, msg))
  {
  }

  lemma {:induction false} TableIsKnown(t: Corpus, i: nat)
    requires i <= |t.messages| == |t.masks|
    ensures TableTemplates(t.byID) <= KnownAt(t, i)
  {
    if i > 0 {
      TableIsKnown(t, i - 1);
    }
  }

  ghost predicate OwnKnownAt(t: Corpus, i: nat)
    requires i < |t.messages| == |t.masks|
  {
    StoredAt(t, i).template in KnownAt(t, i)
  }

  /** A message is stored with its own template iff it registers it or the template is known. */
  lemma OwnTemplateIff(t: Corpus, i: nat)
    requires i < |t.messages| == |t.masks|
    ensures ChosenAt(t, i) == StoredAt(t, i).template <==> (RegistersAt(t, i) || OwnKnownAt(t, i))
  {
    AnswerInTable(t.byID, t.messages[i]);
    TableIsKnown(t, i);
  }

  /** Copies i < j of a message clash because of message k: at i the message falls back to a match,
      and k then registers the template that copy j finds. */
  ghost predicate ClashBy(t: Corpus, i: nat, k: nat, j: nat)
    requires |t.masks| == |t.messages|
  {
    && i < k < j < |t.messages| && t.messages[i] == t.messages[j]
    && !RegistersAt(t, i) && !OwnKnownAt(t, i)
    && RegistersAt(t, k) && StoredAt(t, k).template == StoredAt(t, i).template
  }

  /** Copies of a message agree in all but what is known. */
  lemma CopiesAgree(t: Corpus, i: nat, j: nat)
    requires CorpusOk(t) && i < |t.messages| && j < |t.messages| && t.messages[i] == t.messages[j]
    ensures StoredAt(t, i) == StoredAt(t, j) && RegistersAt(t, i) == RegistersAt(t, j)
    ensures OwnKnownAt(t, i) == OwnKnownAt(t, j) ==> ChosenAt(t, i) == ChosenAt(t, j)
  {
  }

  lemma KnownStays(t: Corpus, i: nat, j: nat)
    requires i <= j < |t.messages| == |t.masks| && StoredAt(t, i) == StoredAt(t, j)
    ensures OwnKnownAt(t, i) ==> OwnKnownAt(t, j)
  {
    hide Stored, Registers, KnownAt;
    KnownExact(t, i, StoredAt(t, i).template);
    KnownExact(t, j, StoredAt(t, i).template);
  }

  lemma NewlyKnown(t: Corpus, i: nat, j: nat) returns (k: nat)
    requires i < j < |t.messages| == |t.masks| && StoredAt(t, i) == StoredAt(t, j)
    requires !OwnKnownAt(t, i) && OwnKnownAt(t, j)
    ensures i <= k < j && RegistersAt(t, k) && StoredAt(t, k).template == StoredAt(t, i).template
  {
    hide Stored, Registers, KnownAt;
    var own := StoredAt(t, i).template;
    KnownExact(t, i, own);
    KnownExact(t, j, own);
    k :| 0 <= k < j && RegistersAt(t, k) && StoredAt(t, k).template == own;
  }

  lemma ClashCause(t: Corpus, i: nat, j: nat) returns (k: nat)
    requires CorpusOk(t) && i < j < |t.messages| && t.messages[i] == t.messages[j] && ChosenAt(t, i) != ChosenAt(t, j)
    ensures ClashBy(t, i, k, j)
  {
    CorpusLengths(t);
    hide *;
    CopiesAgree(t, i, j);
    OwnTemplateIff(t, i);
    OwnTemplateIff(t, j);
    KnownStays(t, i, j);
    k := NewlyKnown(t, i, j);
    ClashByMeans(t, i, k, j);
  }

  lemma CorpusLengths(t: Corpus)
    requires CorpusOk(t)
    ensures |t.masks| == |t.messages|
  {
  }

  lemma ClashByMeans(t: Corpus, i: nat, k: nat, j: nat)
    requires |t.masks| == |t.messages| && i <= k < j < |t.messages| && t.messages[i] == t.messages[j]
    requires !RegistersAt(t, i) && !OwnKnownAt(t, i) && RegistersAt(t, k)
    requires StoredAt(t, k).template == StoredAt(t, i).template
    ensures ClashBy(t, i, k, j)
  {
    hide Registers, KnownAt, Stored;
  }

  lemma CauseClashes(t: Corpus, i: nat, k: nat, j: nat)
    requires CorpusOk(t) && ClashBy(t, i, k, j)
    ensures ChosenAt(t, i) != ChosenAt(t, j)
  {
    CopiesAgree(t, i, j);
    OwnTemplateIff(t, i);
    OwnTemplateIff(t, j);
    KnownExact(t, j, StoredAt(t, i).template);
    hide ChosenAt, StoredAt, RegistersAt, KnownAt;
    assert RegisteredBefore(t, j, StoredAt(t, j).template);
  }

  /** Exactly when copies of a message clash. */
  lemma ClashIff(t: Corpus)
    requires CorpusOk(t)
    ensures Clash(t) <==> exists i, k, j :: ClashBy(t, i, k, j)
  {
    hide ChosenAt, StoredAt, RegistersAt, OwnKnownAt;
    if Clash(t) {
      var i, j :| 0 <= i < j < |t.messages| && t.messages[i] == t.messages[j] && ChosenAt(t, i) != ChosenAt(t, j);
      var k := ClashCause(t, i, j);
    }
    if i, k, j :| ClashBy(t, i, k, j) {
      CauseClashes(t, i, k, j);
    }
  }

  /** Training a corpus without duplicates cannot fail, nor can one in which every message is
      stored with its own template. */
  lemma NoClash(t: Corpus)
    requires CorpusOk(t)
    requires Distinct(t.messages) || forall i :: 0 <= i < |t.messages| ==> ChosenAt(t, i) == StoredAt(t, i).template
    ensures !Clash(t)
  {
    hide ChosenAt;
  }

  // -------------------------------------------------------------- the loop

  /** templateIDs is the inverse of the template table. */
  ghost predicate IDsOk(ids: map<Str, nat>, templates: seq<Str>) {
    && (forall t :: t in ids ==> ids[t] < |templates| && templates[ids[t]] == t)
    && (forall id :: 0 <= id < |templates| ==> templates[id] in ids && ids[templates[id]] == id)
  }

  /** The ensureTemplateID closure. */
  method EnsureTemplateID(templates0: seq<Str>, ids0: map<Str, nat>, template: Str)
    returns (templates: seq<Str>, ids: map<Str, nat>, id: nat)
    requires IDsOk(ids0, templates0)
    ensures IDsOk(ids, templates) && templates0 <= templates
    ensures ids.Keys == ids0.Keys + {template}
    ensures id < |templates| && templates[id] == template
  {
    templates, ids := templates0, ids0;
    if template in ids {
      return templates, ids, ids[template];
    }
    id := |templates|;
    templates := templates + [template];
    ids := ids[template := id];
  }

  /** A matched template is in the codec's table under its own id. */
  lemma MatchedTemplate(matcher: Matcher.Matcher, msg: Str, id: int)
    requires matcher.Valid() && id == Matcher.AnswerOf(matcher.byID, msg) && id != -1
    ensures 0 <= id < |matcher.templates| && id < |matcher.byID| && matcher.templates[id] == matcher.byID[id].template
  {
    AnswerInTable(matcher.byID, msg);
    assert matcher.byID[id] == CompiledFor(id, matcher.templates[id]);
  }

  lemma KnownID(ids: map<Str, nat>, templates: seq<Str>, template: Str)
    requires IDsOk(ids, templates) && template in ids
    ensures ids[template] < |templates| && templates[ids[template]] == template
    ensures ids.Keys + {template} == ids.Keys
  {
  }

  /** The lookup of a template read from a mask: the template itself if it is known or nothing
      matches the message, and otherwise the best match, whatever its placeholders. */
  method FindTemplateID(templates0: seq<Str>, ids0: map<Str, nat>, template: Str, msg: Str, matcher: Matcher.Matcher)
    returns (templates: seq<Str>, ids: map<Str, nat>, id: nat)
    requires IDsOk(ids0, templates0) && matcher.Valid() && matcher.templates <= templates0
    ensures IDsOk(ids, templates) && templates0 <= templates && id < |templates|
    ensures ids.Keys == if Matcher.AnswerOf(matcher.byID, msg) == -1 then ids0.Keys + {template} else ids0.Keys
    ensures var best := Matcher.AnswerOf(matcher.byID, msg);
      if template in ids0 || best == -1 then templates[id] == template
      else 0 <= best < |matcher.byID| && id == best && templates[id] == matcher.byID[best].template
  {
    hide IDsOk, Matcher.Matcher.Valid, Matcher.AnswerOf;
    templates, ids := templates0, ids0;
    if template in ids {
      KnownID(ids, templates, template);
      return templates, ids, ids[template];
    }
    var matched, ok := matcher.MatchID(msg);
    if ok {
      MatchedTemplate(matcher, msg, matched);
      return templates, ids, matched;
    }
    templates, ids, id := EnsureTemplateID(templates, ids, template);
  }

  /** The entry names the template of id: an id names one template only. */
  lemma SameID(templates: seq<Str>, ids: map<Str, nat>, e: Entry, id: nat, args: seq<Str>)
    requires IDsOk(ids, templates) && id < |templates|
    ensures EntryIs(templates, e, templates[id], args) <==> e.templateID == id && e.args == args
  {
  }

  /** The id and arguments of a message, before it is looked up in the entries. */
  method EncodeMessage(templates0: seq<Str>, ids0: map<Str, nat>, msg: Str, mask: Str, matcher: Matcher.Matcher)
    returns (templates: seq<Str>, ids: map<Str, nat>, r: Result<Entry>)
    requires IDsOk(ids0, templates0) && matcher.Valid() && matcher.templates <= templates0
    ensures IDsOk(ids, templates) && templates0 <= templates
    ensures r.Ok? <==> Readable(msg, mask)
    ensures r.Ok? ==> ids.Keys == KnownAfter(matcher.byID, ids0.Keys, msg, mask)
    ensures r.Ok? ==> EntryIs(templates, r.value, Chosen(matcher.byID, ids0.Keys, msg, mask), Stored(msg, mask).args)
  {
    hide MaskCut, ValidMask, Join, IDsOk, Matcher.Matcher.Valid, RenderingOf, Matcher.AnswerOf;
    var id: nat;
    if |mask| != |msg| {
      templates, ids, id := EnsureTemplateID(templates0, ids0, msg);
      return templates, ids, Ok(Entry(id, []));
    }
    var rendered := TemplateAndArgsFromMask(msg, mask);
    if rendered.Err? {
      return templates0, ids0, Err;
    }
    templates, ids, id := FindTemplateID(templates0, ids0, rendered.value.template, msg, matcher);
    r := Ok(Entry(id, rendered.value.args));
  }

  /** The body of the training loop; ok is false where the program returns an error: at a mask
      that cannot be read, and at a copy of a message that was stored differently. */
  method TrainMessage(templates0: seq<Str>, ids0: map<Str, nat>, entries0: map<Str, Entry>, msg: Str, mask: Str,
      matcher: Matcher.Matcher)
    returns (templates: seq<Str>, ids: map<Str, nat>, entries: map<Str, Entry>, ok: bool)
    requires IDsOk(ids0, templates0) && matcher.Valid() && matcher.templates <= templates0
    ensures IDsOk(ids, templates) && templates0 <= templates
    ensures Readable(msg, mask) ==> ids.Keys == KnownAfter(matcher.byID, ids0.Keys, msg, mask)
    ensures var chosen, args := Chosen(matcher.byID, ids0.Keys, msg, mask), Stored(msg, mask).args;
      && (ok <==> Readable(msg, mask) && (msg in entries0 ==> EntryIs(templates, entries0[msg], chosen, args)))
      && (ok ==> msg in entries && EntryIs(templates, entries[msg], chosen, args))
    ensures ok ==> entries.Keys == entries0.Keys + {msg}
    ensures forall m :: m in entries0 ==> m in entries && entries[m] == entries0[m]
  {
    hide IDsOk, Matcher.Matcher.Valid, Readable, KnownAfter, Chosen, Stored;
    entries, ok := entries0, true;
    var r;
    templates, ids, r := EncodeMessage(templates0, ids0, msg, mask, matcher);
    if r.Err? {
      return templates, ids, entries, false;
    }
    if msg in entries {
      SameID(templates, ids, entries[msg], r.value.templateID, r.value.args);
      ok := entries[msg] == r.value;
      return;
    }
    entries := entries[msg := r.value];
  }

  /** templateIDs of the matcher's table. */
  method IndexTemplates(templates: seq<Str>) returns (ids: map<Str, nat>)
    requires Distinct(templates)
    ensures IDsOk(ids, templates) && ids.Keys == Elements(templates)
  {
    ids := map[];
    for id := 0 to |templates|
      invariant forall t :: t in ids ==> ids[t] < id && templates[ids[t]] == t
      invariant forall k :: 0 <= k < id ==> templates[k] in ids && ids[templates[k]] == k
    {
      ids := ids[templates[id] := id];
    }
  }

  lemma TableDistinct(matcher: Matcher.Matcher)
    requires matcher.Valid()
    ensures Distinct(matcher.templates) && Elements(matcher.templates) == TableTemplates(matcher.byID)
  {
    forall i, j | 0 <= i < j < |matcher.templates| ensures matcher.templates[i] != matcher.templates[j] {
      MatcherSpec.DistinctTemplates(matcher.byID, i, j);
    }
    assert forall i :: 0 <= i < |matcher.templates| ==> matcher.templates[i] == matcher.byID[i].template;
  }

  /** The first i messages are stored with their chosen templates. */
  ghost predicate TrainedUpTo(templates: seq<Str>, ids: map<Str, nat>, entries: map<Str, Entry>, t: Corpus, i: nat)
    requires i <= |t.messages| == |t.masks|
  {
    && ids.Keys == KnownAt(t, i) && entries.Keys == Elements(t.messages[..i])
    && (forall k :: 0 <= k < i ==> TrainedAt(Codec(templates, entries), t, k))
  }

  lemma TrainedStep(templates0: seq<Str>, ids0: map<Str, nat>, entries0: map<Str, Entry>,
      templates: seq<Str>, ids: map<Str, nat>, entries: map<Str, Entry>, t: Corpus, i: nat)
    requires i < |t.messages| == |t.masks| && TrainedUpTo(templates0, ids0, entries0, t, i)
    requires templates0 <= templates && ids.Keys == KnownAfter(t.byID, ids0.Keys, t.messages[i], t.masks[i])
    requires entries.Keys == entries0.Keys + {t.messages[i]}
    requires forall m :: m in entries0 ==> m in entries && entries[m] == entries0[m]
    requires EntryIs(templates, entries[t.messages[i]], Chosen(t.byID, ids0.Keys, t.messages[i], t.masks[i]),
      Stored(t.messages[i], t.masks[i]).args)
    ensures TrainedUpTo(templates, ids, entries, t, i + 1)
  {
    hide Chosen, Stored, KnownAfter;
    assert t.messages[..i + 1] == t.messages[..i] + [t.messages[i]];
    forall k | 0 <= k < i ensures TrainedAt(Codec(templates, entries), t, k) {
      assert TrainedAt(Codec(templates0, entries0), t, k);
    }
  }

  /** The loop stops at message i: an earlier copy was stored with another template. */
  lemma StopsAtClash(templates0: seq<Str>, ids0: map<Str, nat>, entries0: map<Str, Entry>, templates: seq<Str>,
      t: Corpus, i: nat)
    requires CorpusOk(t) && i < |t.messages| && TrainedUpTo(templates0, ids0, entries0, t, i)
    requires templates0 <= templates && t.messages[i] in entries0
    requires !EntryIs(templates, entries0[t.messages[i]], ChosenAt(t, i), StoredAt(t, i).args)
    ensures Clash(t)
  {
    hide KnownAt, Stored, Chosen;
    var k :| 0 <= k < i && t.messages[..i][k] == t.messages[i];
    assert TrainedAt(Codec(templates0, entries0), t, k);
    assert ChosenAt(t, k) != ChosenAt(t, i);
  }

  lemma AllTrained(templates: seq<Str>, ids: map<Str, nat>, entries: map<Str, Entry>, t: Corpus)
    requires CorpusOk(t) && TrainedUpTo(templates, ids, entries, t, |t.messages|)
    ensures Trained(Codec(templates, entries), t) && !Clash(t)
  {
    hide ChosenAt, Stored;
    assert t.messages[..|t.messages|] == t.messages;
    forall i, j | 0 <= i < j < |t.messages| && t.messages[i] == t.messages[j] ensures ChosenAt(t, i) == ChosenAt(t, j) {
      assert TrainedAt(Codec(templates, entries), t, i) && TrainedAt(Codec(templates, entries), t, j);
    }
  }

  /** The training loop: it fails exactly when copies of a message clash. */
  method Train(messages: seq<Str>, masks: seq<Str>, matcher: Matcher.Matcher, ghost t: Corpus) returns (r: Result<Codec>)
    requires matcher.Valid() && t == Corpus(matcher.byID, messages, masks) && CorpusOk(t)
    ensures r.Ok? <==> !Clash(t)
    ensures r.Ok? ==> Trained(r.value, t)
  {
    hide IDsOk, Matcher.Matcher.Valid, Readable, KnownAfter, Chosen, Stored, TrainedUpTo, EntryIs, Clash, Trained;
    var templates := matcher.templates;
    TableDistinct(matcher);
    var ids := IndexTemplates(templates);
    var entries: map<Str, Entry> := map[];
    NothingTrained(templates, ids, entries, t);
    for i := 0 to |messages|
      invariant IDsOk(ids, templates) && matcher.templates <= templates
      invariant TrainedUpTo(templates, ids, entries, t, i)
    {
      ghost var templates0, ids0, entries0 := templates, ids, entries;
      KnownSoFar(templates, ids, entries, t, i);
      var ok;
      templates, ids, entries, ok := TrainMessage(templates, ids, entries, messages[i], masks[i], matcher);
      if !ok {
        StopsAtClash(templates0, ids0, entries0, templates, t, i);
        return Err;
      }
      TrainedStep(templates0, ids0, entries0, templates, ids, entries, t, i);
    }
    AllTrained(templates, ids, entries, t);
    r := Ok(Codec(templates, entries));
  }

  lemma NothingTrained(templates: seq<Str>, ids: map<Str, nat>, entries: map<Str, Entry>, t: Corpus)
    requires |t.masks| == |t.messages| && ids.Keys == TableTemplates(t.byID) && entries == map[]
    ensures TrainedUpTo(templates, ids, entries, t, 0)
  {
  }

  lemma KnownSoFar(templates: seq<Str>, ids: map<Str, nat>, entries: map<Str, Entry>, t: Corpus, i: nat)
    requires CorpusOk(t) && i < |t.messages| && TrainedUpTo(templates, ids, entries, t, i)
    ensures Readable(t.messages[i], t.masks[i])
    ensures Chosen(t.byID, ids.Keys, t.messages[i], t.masks[i]) == ChosenAt(t, i)
  {
  }
}
