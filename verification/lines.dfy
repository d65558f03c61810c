/**
  The line split of Rust's `str::lines`: the text is cut after every `\n`,
  the `\n` is dropped together with one `\r` directly before it, and a final
  piece without a terminator is kept as it is. So a trailing line ending
  adds no empty line, and the empty text has no lines at all.
 */
module LineSplit {

  /** How one line of a text ends: `\n`, `\r\n`, or at the end of the text. */
  datatype LineEnd = Lf | CrLf | Eof

  function Terminator(e: LineEnd): string
  {
    match e
    case Lf => "\n"
    case CrLf => "\r\n"
    case Eof => ""
  }

  /** Index of the first `\n` of `s`, or `|s|` when there is none. */
  function NewlineIndex(s: string): (i: nat)
    ensures i <= |s|
    ensures i < |s| ==> s[i] == '\n'
    ensures forall j :: 0 <= j < i ==> s[j] != '\n'
  {
    if s == [] || s[0] == '\n' then 0 else 1 + NewlineIndex(s[1..])
  }

  predicate EndsWithCr(s: string)
  {
    |s| > 0 && s[|s| - 1] == '\r'
  }

  function StripCr(s: string): (r: string)
    ensures EndsWithCr(s) ==> r + "\r" == s
    ensures !EndsWithCr(s) ==> r == s
  {
    if EndsWithCr(s) then s[..|s| - 1] else s
  }

  /** The lines of `s`, terminators removed, in order. */
  function Lines(s: string): (r: seq<string>)
    ensures r == [] <==> s == []
    ensures forall k :: 0 <= k < |r| ==> '\n' !in r[k]
    decreases |s|
  {
    if s == [] then []
    else
      var i := NewlineIndex(s);
      if i == |s| then [s]
      else [StripCr(s[..i])] + Lines(s[i + 1..])
  }

  /** How each line of `Lines(s)` ended in `s`. */
  function Endings(s: string): (r: seq<LineEnd>)
    ensures |r| == |Lines(s)|
    decreases |s|
  {
    if s == [] then []
    else
      var i := NewlineIndex(s);
      if i == |s| then [Eof]
      else [if EndsWithCr(s[..i]) then CrLf else Lf] + Endings(s[i + 1..])
  }

  /** Writes every line followed by its terminator. */
  function Render(ls: seq<string>, es: seq<LineEnd>): string
    requires |ls| == |es|
  {
    if ls == [] then [] else ls[0] + Terminator(es[0]) + Render(ls[1..], es[1..])
  }

  /**
    Lines and endings that a text can split into: no line holds a `\n`, only
    the last line may lack a terminator and then it is not empty, and a line
    ended by a bare `\n` does not itself end in `\r` (that `\r` would be read
    as part of a `\r\n`).
   */
  predicate WellFormed(ls: seq<string>, es: seq<LineEnd>)
  {
    && |ls| == |es|
    && (forall k :: 0 <= k < |ls| ==> '\n' !in ls[k])
    && (forall k :: 0 <= k < |es| && es[k] == Eof ==> k == |es| - 1 && ls[k] != [])
    && (forall k :: 0 <= k < |es| && es[k] == Lf ==> !EndsWithCr(ls[k]))
  }

  lemma NewlineIndexIs(s: string, i: nat)
    requires i <= |s|
    requires i < |s| ==> s[i] == '\n'
    requires forall j :: 0 <= j < i ==> s[j] != '\n'
    ensures NewlineIndex(s) == i
  {
  }

  /** One step of the split of a text that holds a `\n`. */
  lemma SplitStep(s: string, i: nat)
    requires i < |s| && i == NewlineIndex(s)
    ensures Lines(s) == [StripCr(s[..i])] + Lines(s[i + 1..])
    ensures Endings(s) == [if EndsWithCr(s[..i]) then CrLf else Lf] + Endings(s[i + 1..])
  {
  }

  /** The line cut off before the first `\n`, with its ending. */
  lemma FirstLine(s: string, i: nat)
    requires i < |s| && i == NewlineIndex(s)
    ensures Lines(s)[0] + Terminator(Endings(s)[0]) == s[..i + 1]
    ensures '\n' !in Lines(s)[0]
    ensures Endings(s)[0] != Eof
    ensures Endings(s)[0] == Lf ==> !EndsWithCr(Lines(s)[0])
  {
    var head := s[..i];
    assert '\n' !in head;
    assert s[..i + 1] == head + "\n";
    HeadLine(head, s[..i + 1]);
    SplitStep(s, i);
  }

  lemma HeadLine(head: string, withNl: string)
    requires '\n' !in head && withNl == head + "\n"
    ensures StripCr(head) + Terminator(if EndsWithCr(head) then CrLf else Lf) == withNl
    ensures '\n' !in StripCr(head)
    ensures !EndsWithCr(head) ==> !EndsWithCr(StripCr(head))
  {
    assert StripCr(head) <= head;
  }

  /** Splitting yields lines and endings that satisfy `WellFormed`. */
  lemma {:induction false} SplitWellFormed(s: string)
    ensures WellFormed(Lines(s), Endings(s))
    decreases |s|
  {
    if s != [] {
      var i := NewlineIndex(s);
      if i < |s| {
        var rest := s[i + 1..];
        SplitWellFormed(rest);
        FirstLine(s, i);
        var ls, es := Lines(s), Endings(s);
        assert ls[1..] == Lines(rest);
        assert es[1..] == Endings(rest);
        forall k | 0 <= k < |es| && es[k] == Eof
          ensures k == |es| - 1 && ls[k] != []
        {
          assert Endings(rest)[k - 1] == Eof;
        }
      }
    }
  }

  /** Splitting loses nothing but the terminators: writing the split back gives the text again. */
  lemma {:induction false} RenderSplit(s: string)
    ensures Render(Lines(s), Endings(s)) == s
    decreases |s|
  {
    if s != [] {
      var i := NewlineIndex(s);
      if i < |s| {
        var rest := s[i + 1..];
        RenderSplit(rest);
        FirstLine(s, i);
        SplitStep(s, i);
        var ls, es := Lines(s), Endings(s);
        RenderCons(ls, es);
        assert ls[1..] == Lines(rest) && es[1..] == Endings(rest);
        assert s == s[..i + 1] + rest;
      }
    }
  }

  lemma RenderCons(ls: seq<string>, es: seq<LineEnd>)
    requires |ls| == |es| && |ls| > 0
    ensures Render(ls, es) == ls[0] + Terminator(es[0]) + Render(ls[1..], es[1..])
  {
  }

  /** Dropping the first line keeps a split well formed. */
  lemma WellFormedTail(ls: seq<string>, es: seq<LineEnd>)
    requires WellFormed(ls, es) && |ls| > 0
    ensures WellFormed(ls[1..], es[1..])
  {
    forall k | 0 <= k < |es| - 1 && es[1..][k] == Eof
      ensures k == |es| - 2 && ls[1..][k] != []
    {
      assert es[k + 1] == Eof;
    }
  }

  /** Splitting a text that starts with a terminated line cuts off exactly that line. */
  lemma SplitTerminated(l: string, e: LineEnd, rest: string)
    requires '\n' !in l && e != Eof
    requires e == Lf ==> !EndsWithCr(l)
    ensures Lines(l + Terminator(e) + rest) == [l] + Lines(rest)
    ensures Endings(l + Terminator(e) + rest) == [e] + Endings(rest)
  {
    var s := l + Terminator(e) + rest;
    var i := if e == Lf then |l| else |l| + 1;
    forall j | 0 <= j < i
      ensures s[j] != '\n'
    {
      if j < |l| {
        assert s[j] == l[j];
      }
    }
    NewlineIndexIs(s, i);
    SplitStep(s, i);
    assert s[i + 1..] == rest;
    if e == Lf {
      assert s[..i] == l;
    } else {
      assert s[..i] == l + "\r";
      assert StripCr(l + "\r") == l;
    }
  }

  /** A non-empty text without `\n` is one unterminated line. */
  lemma SplitUnterminated(l: string)
    requires l != [] && '\n' !in l
    ensures Lines(l) == [l]
    ensures Endings(l) == [Eof]
  {
    NewlineIndexIs(l, |l|);
  }

  /** Writing well-formed lines out and splitting the text gives back the same lines and endings. */
  lemma {:induction false} SplitRender(ls: seq<string>, es: seq<LineEnd>)
    requires WellFormed(ls, es)
    ensures Lines(Render(ls, es)) == ls
    ensures Endings(Render(ls, es)) == es
  {
    if ls != [] {
      var l, rest := ls[0], Render(ls[1..], es[1..]);
      RenderCons(ls, es);
      if es[0] == Eof {
        SplitLastLine(ls, es);
      } else {
        WellFormedTail(ls, es);
        SplitRender(ls[1..], es[1..]);
        SplitTerminated(l, es[0], rest);
        assert ls == [l] + ls[1..] && es == [es[0]] + es[1..];
      }
    }
  }

  /** A well-formed split whose first line is unterminated has that line only. */
  lemma SplitLastLine(ls: seq<string>, es: seq<LineEnd>)
    requires WellFormed(ls, es) && |ls| > 0 && es[0] == Eof
    ensures Lines(Render(ls, es)) == ls
    ensures Endings(Render(ls, es)) == es
  {
    assert |ls| == 1;
    RenderCons(ls, es);
    assert Render(ls, es) == ls[0];
    SplitUnterminated(ls[0]);
  }

  /**
    A terminator after the last line changes nothing: the text without it
    and the text with `\n` or `\r\n` appended have the same lines.
   */
  lemma FinalEndingOptional(ls: seq<string>, es: seq<LineEnd>, e: LineEnd)
    requires WellFormed(ls, es) && |ls| > 0 && es[|es| - 1] == Eof && e != Eof
    requires e == Lf ==> !EndsWithCr(ls[|ls| - 1])
    ensures Lines(Render(ls, es[|es| - 1 := e])) == Lines(Render(ls, es))
  {
    var es' := es[|es| - 1 := e];
    assert WellFormed(ls, es') by {
      forall k | 0 <= k < |es'|
        ensures es'[k] != Eof
      {
        if k < |es'| - 1 {
          assert es'[k] == es[k];
        }
      }
      forall k | 0 <= k < |es'| && es'[k] == Lf
        ensures !EndsWithCr(ls[k])
      {
        if k < |es| - 1 {
          assert es[k] == Lf;
        }
      }
    }
    SplitRender(ls, es);
    SplitRender(ls, es');
  }
}
