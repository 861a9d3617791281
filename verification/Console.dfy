/** The terminal of `init`: a finite script of lines and Ctrl-C presses, then end of input. */
module Console {
  import opened Environment

  datatype Input = Line(text: string) | CtrlC

  /** What input() does: a line, KeyboardInterrupt or EOFError. */
  datatype Answer = Text(text: string) | Interrupt | EndOfInput

  /** _confirm's reading of a line. */
  predicate Affirms(line: string, defaultYes: bool) {
    var raw := Lower(Strip(line));
    if raw == "" then defaultYes else raw == "y" || raw == "yes"
  }

  /** An empty line takes the default; otherwise y or yes, in any case, and nothing else. */
  lemma AffirmsExactly(line: string, defaultYes: bool)
    ensures Affirms(line, defaultYes) <==>
              var s := Strip(line);
              if s == "" then defaultYes
              else s == "y" || s == "Y" || (|s| == 3 && s[0] in "yY" && s[1] in "eE" && s[2] in "sS")
  {
    var s := Strip(line);
    hide Strip;
    forall i | 0 <= i < |s| ensures Lower(s)[i] == LowerChar(s[i]) {}
    assert Lower(s) == "yes" <==> |s| == 3 && Lower(s)[0] == 'y' && Lower(s)[1] == 'e' && Lower(s)[2] == 's';
    assert Lower(s) == "y" <==> |s| == 1 && Lower(s)[0] == 'y';
  }

  datatype Decision = Yes | No | Broken(cause: Answer)

  class Terminal {
    const script: seq<Input>
    /** How much of the script has been read. */
    var at: nat

    ghost predicate Valid()
      reads this
    {
      at <= |script|
    }

    /** The input ended in a Ctrl-C just read, or was used up. */
    ghost predicate Stopped(a: Answer)
      requires Valid()
      reads this
    {
      && (a.Interrupt? ==> at > 0 && script[at - 1].CtrlC?)
      && (a.EndOfInput? ==> at == |script|)
    }

    constructor (script: seq<Input>)
      ensures this.script == script && at == 0 && Valid()
    {
      this.script, at := script, 0;
    }

    /** _prompt and _prompt_secret: the stripped line. */
    method Prompt() returns (a: Answer)
      requires Valid()
      modifies this
      ensures Valid() && (a.EndOfInput? <==> old(at) == |script|) && (!a.Text? ==> Stopped(a))
      ensures at == if a.EndOfInput? then old(at) else old(at) + 1
      ensures a.Interrupt? ==> script[old(at)].CtrlC?
      ensures a.Text? ==> script[old(at)].Line? && a.text == Strip(script[old(at)].text)
    {
      hide Strip;
      if at == |script| {
        return EndOfInput;
      }
      at := at + 1;
      match script[at - 1]
      case Line(text) => return Text(Strip(text));
      case CtrlC => return Interrupt;
    }

    method Confirm(defaultYes: bool) returns (d: Decision)
      requires Valid()
      modifies this
      ensures Valid() && at >= old(at)
      ensures d.Broken? ==> !d.cause.Text? && Stopped(d.cause) && at == if d.cause.Interrupt? then old(at) + 1 else old(at)
      ensures !d.Broken? ==> at == old(at) + 1 && script[old(at)].Line? && (d == Yes <==> Affirms(script[old(at)].text, defaultYes))
    {
      var a := Prompt();
      if !a.Text? {
        return Broken(a);
      }
      var raw := Lower(a.text);
      if raw == "" {
        return if defaultYes then Yes else No;
      }
      return if raw == "y" || raw == "yes" then Yes else No;
    }
  }
}
