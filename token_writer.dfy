/**
 * The token writer of the sniper printer: it passes every call of the generic
 * printer on to the standard writer, until it is muted; a muted writer drops
 * tokens and only keeps the printer helper's "write tabs at the next token" flag
 * up to date.
 *
 * The standard writer and its printer helper are not part of this model: the
 * writer's observable behaviour is the sequence of effects it has on them.
 */
module TokenWriters {

  datatype TokenKind = Separator | Operator | Literal | Keyword | Identifier | CodeSnippet

  /** A call of the token-writer interface, as the generic printer makes it. */
  datatype WriterCall =
    | WriteToken(kind: TokenKind, token: string)
    | WriteComment(comment: string)
    | Writeln
    | IncTab
    | DecTab
    | Reset
    | WriteSpace

  /** An effect on the standard writer or its printer helper. */
  datatype Effect =
    | Delegated(call: WriterCall)       // the call passed on to the standard writer
    | ShouldWriteTabs(value: bool)      // the helper's flag set by a muted writer
    | Direct(text: string)              // text appended to the output as it is

  /** What a muted writer does with a call: tokens and spaces clear the tab flag, a newline sets it, the rest is dropped. */
  function MutedEffect(call: WriterCall): (r: seq<Effect>)
    ensures |r| <= 1 && forall e | e in r :: e.ShouldWriteTabs?
    ensures r == [] <==> call.IncTab? || call.DecTab? || call.Reset?
    ensures r == [ShouldWriteTabs(true)] <==> call.Writeln?
  {
    match call
    case IncTab => []
    case DecTab => []
    case Reset => []
    case Writeln => [ShouldWriteTabs(true)]
    case _ => [ShouldWriteTabs(false)]
  }

  function EffectOf(muted: bool, call: WriterCall): seq<Effect> {
    if muted then MutedEffect(call) else [Delegated(call)]
  }

  /** The effects of a sequence of calls made with the writer in one mute state. */
  function EffectsOf(muted: bool, calls: seq<WriterCall>): seq<Effect> {
    if calls == [] then [] else EffectOf(muted, calls[0]) + EffectsOf(muted, calls[1..])
  }

  /** No text reaches the output: only the tab flag is touched. */
  predicate Silent(effects: seq<Effect>) {
    forall i :: 0 <= i < |effects| ==> effects[i].ShouldWriteTabs?
  }

  /** A muted writer prints nothing, whatever it is asked to write. */
  lemma {:induction false} MutedIsSilent(calls: seq<WriterCall>)
    ensures Silent(EffectsOf(true, calls))
    ensures |EffectsOf(true, calls)| <= |calls|
  {
    if calls != [] {
      MutedIsSilent(calls[1..]);
    }
  }

  /** An unmuted writer passes on exactly the calls it receives, in order. */
  lemma {:induction false} UnmutedIsTransparent(calls: seq<WriterCall>)
    ensures EffectsOf(false, calls) == seq(|calls|, i requires 0 <= i < |calls| => Delegated(calls[i]))
  {
    if calls != [] {
      UnmutedIsTransparent(calls[1..]);
    }
  }

  /** The effects of consecutive calls are the effects of each, in order. */
  lemma {:induction false} EffectsAppend(muted: bool, a: seq<WriterCall>, b: seq<WriterCall>)
    ensures EffectsOf(muted, a + b) == EffectsOf(muted, a) + EffectsOf(muted, b)
  {
    if a == [] {
      assert a + b == b;
    } else {
      assert (a + b)[1..] == a[1..] + b;
      EffectsAppend(muted, a[1..], b);
    }
  }

  lemma SilentAppend(a: seq<Effect>, b: seq<Effect>)
    requires Silent(a) && Silent(b)
    ensures Silent(a + b)
  {
  }

  class MutableTokenWriter {
    var muted: bool
    /** Everything this writer has done to the standard writer and its helper, oldest first. */
    var effects: seq<Effect>

    constructor ()
      ensures !muted && effects == []
    {
      muted := false;
      effects := [];
    }

    function IsMuted(): (r: bool)
      reads this
      ensures r <==> muted
    {
      muted
    }

    method SetMuted(value: bool)
      modifies this
      ensures muted == value && effects == old(effects)
    {
      muted := value;
    }

    /** DirectPrinterHelper.directPrint: the text goes to the output, muted or not. */
    method DirectPrint(text: string)
      modifies this
      ensures muted == old(muted) && effects == old(effects) + [Direct(text)]
    {
      effects := effects + [Direct(text)];
    }

    /** The common shape of every write: muted, set the helper's flag; otherwise delegate. */
    method WriteOrFlag(call: WriterCall, flag: bool)
      requires !(call.IncTab? || call.DecTab? || call.Reset?)
      requires flag <==> call.Writeln?
      modifies this
      ensures muted == old(muted) && effects == old(effects) + EffectOf(muted, call)
    {
      if IsMuted() {
        effects := effects + [ShouldWriteTabs(flag)];
        return;
      }
      effects := effects + [Delegated(call)];
    }

    method WriteSeparator(token: string)
      modifies this
      ensures muted == old(muted) && effects == old(effects) + EffectOf(muted, WriteToken(Separator, token))
    {
      WriteOrFlag(WriteToken(Separator, token), false);
    }

    method WriteOperator(token: string)
      modifies this
      ensures muted == old(muted) && effects == old(effects) + EffectOf(muted, WriteToken(Operator, token))
    {
      WriteOrFlag(WriteToken(Operator, token), false);
    }

    method WriteLiteral(token: string)
      modifies this
      ensures muted == old(muted) && effects == old(effects) + EffectOf(muted, WriteToken(Literal, token))
    {
      WriteOrFlag(WriteToken(Literal, token), false);
    }

    method WriteKeyword(token: string)
      modifies this
      ensures muted == old(muted) && effects == old(effects) + EffectOf(muted, WriteToken(Keyword, token))
    {
      WriteOrFlag(WriteToken(Keyword, token), false);
    }

    method WriteIdentifier(token: string)
      modifies this
      ensures muted == old(muted) && effects == old(effects) + EffectOf(muted, WriteToken(Identifier, token))
    {
      WriteOrFlag(WriteToken(Identifier, token), false);
    }

    method WriteCodeSnippet(token: string)
      modifies this
      ensures muted == old(muted) && effects == old(effects) + EffectOf(muted, WriteToken(CodeSnippet, token))
    {
      WriteOrFlag(WriteToken(CodeSnippet, token), false);
    }

    method WriteComment(comment: string)
      modifies this
      ensures muted == old(muted) && effects == old(effects) + EffectOf(muted, WriterCall.WriteComment(comment))
    {
      WriteOrFlag(WriterCall.WriteComment(comment), false);
    }

    method WriteSpace()
      modifies this
      ensures muted == old(muted) && effects == old(effects) + EffectOf(muted, WriterCall.WriteSpace)
    {
      WriteOrFlag(WriterCall.WriteSpace, false);
    }

    /** A muted newline sets the helper's flag, so that the next printed token starts with indentation. */
    method Writeln()
      modifies this
      ensures muted == old(muted) && effects == old(effects) + EffectOf(muted, WriterCall.Writeln)
    {
      WriteOrFlag(WriterCall.Writeln, true);
    }

    /** Indentation changes and reset are dropped entirely while muted. */
    method IncTab()
      modifies this
      ensures muted == old(muted) && effects == old(effects) + EffectOf(muted, WriterCall.IncTab)
    {
      if IsMuted() {
        return;
      }
      effects := effects + [Delegated(WriterCall.IncTab)];
    }

    method DecTab()
      modifies this
      ensures muted == old(muted) && effects == old(effects) + EffectOf(muted, WriterCall.DecTab)
    {
      if IsMuted() {
        return;
      }
      effects := effects + [Delegated(WriterCall.DecTab)];
    }

    method Reset()
      modifies this
      ensures muted == old(muted) && effects == old(effects) + EffectOf(muted, WriterCall.Reset)
    {
      if IsMuted() {
        return;
      }
      effects := effects + [Delegated(WriterCall.Reset)];
    }

    /** Runs the writer method a call names (the reflective invocation of the printer's proxy). */
    method Invoke(call: WriterCall)
      modifies this
      ensures muted == old(muted) && effects == old(effects) + EffectOf(muted, call)
    {
      if call.WriteToken? {
        var token := call.token;
        match call.kind
        case Separator => WriteSeparator(token);
        case Operator => WriteOperator(token);
        case Literal => WriteLiteral(token);
        case Keyword => WriteKeyword(token);
        case Identifier => WriteIdentifier(token);
        case CodeSnippet => WriteCodeSnippet(token);
      } else if call.WriteComment? {
        WriteComment(call.comment);
      } else if call.Writeln? {
        Writeln();
      } else if call.IncTab? {
        IncTab();
      } else if call.DecTab? {
        DecTab();
      } else if call.Reset? {
        Reset();
      } else {
        WriteSpace();
      }
    }
  }
}
