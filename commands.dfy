/**
 * The bot's output: one line per turn, holding the actions it builds joined
 * with ";". An action is either `LINE <source> <target> <strength>` or `WAIT`.
 *
 * The bot itself only writes lines; `Decode` is the reading the game referee
 * gives them, and the round trip `Decode(Encode(acts)) == Some(acts)` shows
 * that the written line carries exactly the action list that was built.
 */
module Commands {
  import opened Options

  datatype Action = Line(src: int, tgt: int, weight: int) | Wait

  // ---------------------------------------------------------------------------
  // Decimal integers, as Rust's `{}` formats an i32

  function DigitChar(d: int): (c: char)
    requires 0 <= d < 10
    ensures '0' <= c <= '9'
  {
    (d + 48) as char
  }

  function DigitValue(c: char): (d: int)
    requires IsDigit(c)
    ensures 0 <= d < 10 && DigitChar(d) == c
  {
    c as int - 48
  }

  predicate IsDigit(c: char) {
    '0' <= c <= '9'
  }

  /** The decimal digits of `n`, most significant first, without leading zeros. */
  function NatToString(n: nat): (s: string)
    ensures s != [] && forall i :: 0 <= i < |s| ==> IsDigit(s[i])
  {
    if n < 10 then [DigitChar(n)] else NatToString(n / 10) + [DigitChar(n % 10)]
  }

  /** `-` followed by the digits for a negative number, the digits alone otherwise. */
  function IntToString(i: int): (s: string)
    ensures s != [] && ' ' !in s && ';' !in s
  {
    if i < 0 then "-" + NatToString(-i) else NatToString(i)
  }

  /** The value of a non-empty string of decimal digits. */
  function DigitsValue(s: string): (n: nat)
    requires s != [] && forall i :: 0 <= i < |s| ==> IsDigit(s[i])
  {
    if |s| == 1 then DigitValue(s[0])
    else DigitsValue(s[..|s| - 1]) * 10 + DigitValue(s[|s| - 1])
  }

  /** The integer a word denotes: optional `-`, then at least one digit. */
  function ParseInt(s: string): (r: Option<int>)
    ensures r.Some? && s != [] && s[0] != '-' ==> r.value >= 0
  {
    if s != [] && s[0] == '-' then
      var t := s[1..];
      if t != [] && forall i :: 0 <= i < |t| ==> IsDigit(t[i]) then Some(0 - DigitsValue(t) as int) else None
    else if s != [] && forall i :: 0 <= i < |s| ==> IsDigit(s[i]) then Some(DigitsValue(s))
    else None
  }

  lemma {:induction false} DigitsRoundTrip(n: nat)
    ensures DigitsValue(NatToString(n)) == n
  {
    if n >= 10 {
      var s := NatToString(n);
      DigitsRoundTrip(n / 10);
      assert s[..|s| - 1] == NatToString(n / 10);
      assert s[|s| - 1] == DigitChar(n % 10);
    }
  }

  /** Reading back a formatted integer gives the integer. */
  lemma IntRoundTrip(i: int)
    ensures ParseInt(IntToString(i)) == Some(i)
  {
    if i < 0 {
      DigitsRoundTrip(-i);
      assert IntToString(i)[1..] == NatToString(-i);
    } else {
      DigitsRoundTrip(i);
    }
  }

  // ---------------------------------------------------------------------------
  // Joining and splitting on a separator

  /** The words separated by `sep`; the empty list gives the empty string (Rust's `join`). */
  function Join(ws: seq<string>, sep: char): (s: string)
    ensures ws == [] ==> s == []
    ensures ws != [] && ws[0] != [] ==> s != []
  {
    if ws == [] then []
    else if |ws| == 1 then ws[0]
    else ws[0] + [sep] + Join(ws[1..], sep)
  }

  /** The pieces of `s` between occurrences of `sep`; there is always at least one. */
  function Split(s: string, sep: char): (ws: seq<string>)
    ensures |ws| >= 1
  {
    if s == [] then [[]]
    else if s[0] == sep then [[]] + Split(s[1..], sep)
    else
      var rest := Split(s[1..], sep);
      [[s[0]] + rest[0]] + rest[1..]
  }

  lemma {:induction false} SplitNoSep(w: string, sep: char)
    requires sep !in w
    ensures Split(w, sep) == [w]
  {
    if w != [] {
      assert sep !in w[1..] by {
        assert forall x :: x in w[1..] ==> x in w;
      }
      SplitNoSep(w[1..], sep);
      assert [w[0]] + w[1..] == w;
    }
  }

  lemma {:induction false} SplitPrefix(w: string, sep: char, t: string)
    requires sep !in w
    ensures Split(w + [sep] + t, sep) == [w] + Split(t, sep)
  {
    if w == [] {
      assert w + [sep] + t == [sep] + t;
      assert ([sep] + t)[1..] == t;
    } else {
      assert sep !in w[1..] by {
        assert forall x :: x in w[1..] ==> x in w;
      }
      SplitPrefix(w[1..], sep, t);
      assert (w + [sep] + t)[1..] == w[1..] + [sep] + t;
      assert [w[0]] + w[1..] == w;
    }
  }

  /** Splitting a join gives back the words, when no word holds the separator. */
  lemma {:induction false} SplitJoin(ws: seq<string>, sep: char)
    requires ws != []
    requires forall i :: 0 <= i < |ws| ==> sep !in ws[i]
    ensures Split(Join(ws, sep), sep) == ws
  {
    if |ws| == 1 {
      SplitNoSep(ws[0], sep);
    } else {
      SplitJoin(ws[1..], sep);
      SplitPrefix(ws[0], sep, Join(ws[1..], sep));
      assert [ws[0]] + ws[1..] == ws;
    }
  }

  // ---------------------------------------------------------------------------
  // Actions

  /** The text of one action, as the bot formats it. */
  function Render(a: Action): (s: string)
    ensures s != [] && ';' !in s
  {
    match a
    case Line(src, tgt, weight) =>
      "LINE " + IntToString(src) + " " + IntToString(tgt) + " " + IntToString(weight)
    case Wait => "WAIT"
  }

  /** The action a piece of a line denotes, if any. */
  function ParseAction(s: string): (r: Option<Action>)
  {
    var ws := Split(s, ' ');
    if ws == ["WAIT"] then Some(Wait)
    else if |ws| == 4 && ws[0] == "LINE" then
      match (ParseInt(ws[1]), ParseInt(ws[2]), ParseInt(ws[3]))
      case (Some(src), Some(tgt), Some(weight)) => Some(Line(src, tgt, weight))
      case _ => None
    else None
  }

  /** Reading back a rendered action gives the action. */
  lemma RenderRoundTrip(a: Action)
    ensures ParseAction(Render(a)) == Some(a)
  {
    match a
    case Line(src, tgt, weight) =>
      var ws := ["LINE", IntToString(src), IntToString(tgt), IntToString(weight)];
      assert Join(ws, ' ') == Render(a) by {
        assert ws[2..][1..] == ws[3..] && ws[1..][1..] == ws[2..];
        assert Join(ws[3..], ' ') == IntToString(weight);
        assert Join(ws[2..], ' ') == IntToString(tgt) + " " + IntToString(weight);
        assert Join(ws[1..], ' ') == IntToString(src) + " " + IntToString(tgt) + " " + IntToString(weight);
        assert "LINE " == "LINE" + [' '];
      }
      SplitJoin(ws, ' ');
      IntRoundTrip(src);
      IntRoundTrip(tgt);
      IntRoundTrip(weight);
    case Wait =>
      SplitNoSep("WAIT", ' ');
  }

  function Renders(acts: seq<Action>): (ws: seq<string>)
    ensures |ws| == |acts|
    ensures forall i :: 0 <= i < |ws| ==> ws[i] != [] && ';' !in ws[i]
  {
    seq(|acts|, i requires 0 <= i < |acts| => Render(acts[i]))
  }

  /** The line `execute_actions` writes: the rendered actions joined with ";". */
  function Encode(acts: seq<Action>): (line: string)
    ensures line == [] <==> acts == []
  {
    Join(Renders(acts), ';')
  }

  /** Every piece must denote an action; the empty line is the empty list. */
  function ParseAll(ws: seq<string>): (r: Option<seq<Action>>)
    ensures r.Some? ==> |r.value| == |ws|
  {
    if ws == [] then Some([])
    else
      match (ParseAction(ws[0]), ParseAll(ws[1..]))
      case (Some(a), Some(rest)) => Some([a] + rest)
      case _ => None
  }

  /** The action list a written line stands for. */
  function Decode(line: string): Option<seq<Action>> {
    if line == [] then Some([]) else ParseAll(Split(line, ';'))
  }

  lemma {:induction false} ParseAllRenders(acts: seq<Action>)
    ensures ParseAll(Renders(acts)) == Some(acts)
  {
    if acts != [] {
      RenderRoundTrip(acts[0]);
      assert Renders(acts)[1..] == Renders(acts[1..]);
      ParseAllRenders(acts[1..]);
      assert [acts[0]] + acts[1..] == acts;
    }
  }

  /** The written line carries exactly the built action list, the empty list included. */
  lemma EncodeRoundTrip(acts: seq<Action>)
    ensures Decode(Encode(acts)) == Some(acts)
  {
    if acts != [] {
      SplitJoin(Renders(acts), ';');
      ParseAllRenders(acts);
    }
  }
}
