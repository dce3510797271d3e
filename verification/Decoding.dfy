/** The codec of corpus_codec.go after training: reading template and arguments from a mask,
    encoding by lookup, decoding by filling a template. */
module Decoding {
  import opened Bytes
  import opened Placeholder
  import opened GreedyMatch
  import opened Pieces

  datatype Result<T> = Ok(value: T) | Err

  datatype Rendering = Rendering(template: Str, args: seq<Str>)

  datatype Entry = Entry(templateID: nat, args: seq<Str>)

  // ----------------------------------------------------------- mask reading

  /** Template and arguments described by a mask. */
  function RenderingOf(msg: Str, mask: Str): Rendering
    requires |msg| == |mask|
  {
    var c := MaskCut(msg, mask);
    Rendering(Join(c.parts), c.args)
  }

  /** i is not inside a run of mask ones. */
  ghost predicate AtRunStart(mask: Str, i: nat)
    requires i <= |mask|
  {
    i == 0 || i == |mask| || mask[i - 1] != '1' || mask[i] != '1'
  }

  lemma CutNext(msg: Str, mask: Str, i: nat)
    requires i < |msg| == |mask|
    ensures MaskCut(msg[..i + 1], mask[..i + 1])
         == Extend(MaskCut(msg[..i], mask[..i]), Open(FlagsOf(mask[..i])), [msg[i]], mask[i] == '0')
  {
    assert Chars(msg[..i + 1]) == Chars(msg[..i]) + [[msg[i]]];
    assert FlagsOf(mask[..i + 1]) == FlagsOf(mask[..i]) + [mask[i] == '0'];
    CutSnoc(Chars(msg[..i]), FlagsOf(mask[..i]), [msg[i]], mask[i] == '0');
  }

  lemma LiteralByte(msg: Str, mask: Str, i: nat)
    requires i < |msg| == |mask| && mask[i] == '0'
    ensures RenderingOf(msg[..i + 1], mask[..i + 1])
         == RenderingOf(msg[..i], mask[..i]).(template := RenderingOf(msg[..i], mask[..i]).template + [msg[i]])
  {
    CutNext(msg, mask, i);
    JoinLiteral(MaskCut(msg[..i], mask[..i]).parts, [msg[i]]);
  }

  /** The mask holds ones from i to j. */
  ghost predicate Ones(mask: Str, i: nat, j: nat) {
    i <= j <= |mask| && forall k :: i <= k < j ==> mask[k] == '1'
  }

  lemma {:induction false} ParameterRun(msg: Str, mask: Str, i: nat, j: nat)
    requires i < j <= |msg| == |mask| && Ones(mask, i, j) && AtRunStart(mask, i) && ValidMask(mask[..i])
    ensures MaskCut(msg[..j], mask[..j]) == OpenParameter(MaskCut(msg[..i], mask[..i]), msg[i..j])
  {
    hide MaskCut, FlagsOf, Open, AtRunStart, ValidMask;
    CutNext(msg, mask, j - 1);
    if j == i + 1 {
      assert msg[i..j] == [msg[i]];
      ClosedAtStart(mask, i);
    } else {
      ParameterRun(msg, mask, i, j - 1);
      OpenInRun(mask, i, j - 1);
      assert msg[i..j] == msg[i..j - 1] + [msg[j - 1]];
    }
  }

  lemma OpenInRun(mask: Str, i: nat, j: nat)
    requires i < j <= |mask| && Ones(mask, i, j)
    ensures Open(FlagsOf(mask[..j]))
  {
    assert FlagsOf(mask[..j])[j - 1] == false;
  }

  lemma ClosedAtStart(mask: Str, i: nat)
    requires i < |mask| && mask[i] == '1' && AtRunStart(mask, i) && ValidMask(mask[..i])
    ensures !Open(FlagsOf(mask[..i]))
  {
    if i > 0 {
      assert mask[..i][i - 1] == mask[i - 1];
    }
  }

  lemma ParameterText(msg: Str, mask: Str, i: nat, j: nat)
    requires i < j <= |msg| == |mask| && Ones(mask, i, j) && AtRunStart(mask, i) && ValidMask(mask[..i])
    ensures var before := RenderingOf(msg[..i], mask[..i]);
      RenderingOf(msg[..j], mask[..j]) == Rendering(before.template + PLACEHOLDER, before.args + [msg[i..j]])
  {
    ParameterRun(msg, mask, i, j);
    JoinOpened(MaskCut(msg[..i], mask[..i]).parts);
  }

  /** templateAndArgsFromMask */
  method TemplateAndArgsFromMask(msg: Str, mask: Str) returns (r: Result<Rendering>)
    ensures r.Ok? <==> |msg| == |mask| && ValidMask(mask)
    ensures r.Ok? ==> r.value == RenderingOf(msg, mask)
  {
    if |msg| != |mask| {
      return Err;
    }
    hide RenderingOf;
    var template: Str := [];
    var args: seq<Str> := [];
    EmptyRendering(msg, mask);
    var i := 0;
    while i < |msg|
      invariant 0 <= i <= |msg| && ValidMask(mask[..i]) && AtRunStart(mask, i)
      invariant Rendering(template, args) == RenderingOf(msg[..i], mask[..i])
    {
      if mask[i] == '0' {
        LiteralByte(msg, mask, i);
        template := template + [msg[i]];
        i := i + 1;
      } else if mask[i] == '1' {
        var j := i + 1;
        while j < |msg| && mask[j] == '1'
          invariant i < j <= |msg| && Ones(mask, i, j)
        {
          j := j + 1;
        }
        ParameterText(msg, mask, i, j);
        template := template + PLACEHOLDER;
        args := args + [msg[i..j]];
        i := j;
      } else {
        return Err;
      }
    }
    assert msg[..i] == msg && mask[..i] == mask;
    r := Ok(Rendering(template, args));
  }

  lemma EmptyRendering(msg: Str, mask: Str)
    requires |msg| == |mask|
    ensures RenderingOf(msg[..0], mask[..0]) == Rendering([], [])
  {
  }

  // ----------------------------------------------------------------- decoding

  /** Filling template id with the arguments, if their number fits. */
  function Decoded(templates: seq<Str>, id: int, args: seq<Str>): Option<Str> {
    if !(0 <= id < |templates|) then None
    else
      var parts := Split(templates[id]);
      if |parts| != |args| + 1 then None else Some(Fill(parts, args))
  }

  /** No literal run of the message contains the placeholder's text; a message without a
      fitting mask is all literal. */
  ghost predicate LiteralsFree(msg: Str, mask: Str) {
    if |msg| == |mask| then AllFree(MaskCut(msg, mask).parts) else Free(msg)
  }

  /** A message's own rendering: its mask's cut, or the message as a literal. The arguments stored
      for the message are always those of its own rendering; the template stored with them may be
      another one. */
  function Stored(msg: Str, mask: Str): Rendering {
    if |msg| == |mask| then RenderingOf(msg, mask) else Rendering(msg, [])
  }

  /** Stored under its own template, a rendering decodes to the message exactly when no literal run
      contains the placeholder's text; otherwise decoding fails. */
  lemma DecodesIff(templates: seq<Str>, id: int, msg: Str, mask: Str)
    requires 0 <= id < |templates| && templates[id] == Stored(msg, mask).template
    ensures Decoded(templates, id, Stored(msg, mask).args) == if LiteralsFree(msg, mask) then Some(msg) else None
  {
    if |msg| == |mask| {
      var c := MaskCut(msg, mask);
      SplitCounts(c.parts);
      if AllFree(c.parts) {
        SplitJoin(c.parts);
        CutDecomposes(Chars(msg), FlagsOf(mask));
        CharsText(msg);
      }
    } else {
      SplitOneIff(msg);
      JoinSplit(msg);
    }
  }

  lemma {:induction false} CharsText(s: Str)
    ensures Concat(Chars(s)) == s && NoEmptyChunk(Chars(s))
  {
    if s != [] {
      CharsText(s[1..]);
      assert Chars(s)[1..] == Chars(s[1..]);
    }
  }

  /** A message that nowhere contains the placeholder's text has free literals under any mask. */
  lemma FreeMessage(msg: Str, mask: Str)
    requires Free(msg)
    ensures LiteralsFree(msg, mask)
  {
    if |msg| == |mask| {
      var c := MaskCut(msg, mask);
      CutDecomposes(Chars(msg), FlagsOf(mask));
      CharsText(msg);
      PartsOfFree(c.parts, c.args);
    }
  }

  lemma {:induction false} PartsOfFree(parts: seq<Str>, args: seq<Str>)
    requires |parts| == |args| + 1 && Free(Fill(parts, args))
    ensures AllFree(parts)
  {
    if args == [] {
      assert parts == [parts[0]];
    } else {
      var rest := Fill(parts[1..], args[1..]);
      var text := Fill(parts, args);
      assert text == [] + parts[0] + (args[0] + rest) && text == (parts[0] + args[0]) + rest + [];
      if Occurs(parts[0], PLACEHOLDER) { OccursInPart([], parts[0], args[0] + rest, PLACEHOLDER); }
      if Occurs(rest, PLACEHOLDER) { OccursInPart(parts[0] + args[0], rest, [], PLACEHOLDER); }
      PartsOfFree(parts[1..], args[1..]);
      AllFreeCons(parts);
    }
  }

  /** A trained codec. */
  datatype Codec = Codec(templates: seq<Str>, entries: map<Str, Entry>)

  /** Decode */
  method Decode(codec: Codec, templateID: int, args: seq<Str>) returns (message: Str, ok: bool)
    ensures ok <==> Decoded(codec.templates, templateID, args).Some?
    ensures ok ==> message == Decoded(codec.templates, templateID, args).value
  {
    if templateID < 0 || templateID >= |codec.templates| {
      return [], false;
    }
    var parts := Split(codec.templates[templateID]);
    if |args| != |parts| - 1 {
      return [], false;
    }
    hide Fill, Written, Split;
    message := [];
    FillWhole(parts, args);
    for i := 0 to |parts|
      invariant Written(message, parts, args, i)
    {
      FillNext(message, parts, args, i);
      message := message + parts[i];
      if i < |args| {
        message := message + args[i];
      }
    }
    FillWhole(parts, args);
    ok := true;
  }

  /** What is left to write at part i. */
  ghost function FillFrom(parts: seq<Str>, args: seq<Str>, i: nat): Str
    requires |parts| == |args| + 1 && i <= |parts|
  {
    if i == |parts| then [] else Fill(parts[i..], args[i..])
  }

  /** The first i literals and arguments have been written. */
  ghost predicate Written(message: Str, parts: seq<Str>, args: seq<Str>, i: nat)
    requires |parts| == |args| + 1 && i <= |parts|
  {
    message + FillFrom(parts, args, i) == Fill(parts, args)
  }

  lemma FillWhole(parts: seq<Str>, args: seq<Str>)
    requires |parts| == |args| + 1
    ensures Written([], parts, args, 0)
    ensures forall message: Str :: Written(message, parts, args, |parts|) ==> message == Fill(parts, args)
  {
    assert parts[0..] == parts && args[0..] == args;
    forall message: Str ensures message + FillFrom(parts, args, |parts|) == message {
    }
  }

  lemma FillNext(message: Str, parts: seq<Str>, args: seq<Str>, i: nat)
    requires |parts| == |args| + 1 && i < |parts| && Written(message, parts, args, i)
    ensures Written(if i < |args| then message + parts[i] + args[i] else message + parts[i], parts, args, i + 1)
  {
    if i < |args| {
      assert parts[i..][1..] == parts[i + 1..] && args[i..][1..] == args[i + 1..];
      var rest := FillFrom(parts, args, i + 1);
      assert message + (parts[i] + (args[i] + rest)) == message + parts[i] + args[i] + rest;
    }
  }

  /** Encode and EncodeID are lookups. */
  function Encode(codec: Codec, msg: Str): Option<Entry> {
    if msg in codec.entries then Some(codec.entries[msg]) else None
  }
}
