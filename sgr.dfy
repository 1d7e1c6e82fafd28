/**
 * Control sequences of ECMA-48 as the engine emits them: CSI (ESC [, section 5.4),
 * the SGR control function "CSI Ps ; ... ; Ps m" (section 8.3.117), an encoder and a
 * decoder for SGR with a round-trip proof, the rendition the parameters select, and
 * Strip, which drops every complete control sequence and keeps the characters a
 * terminal displays.
 */
module Sgr {
  import opened Wrappers

  /** ESC (01/11), the first character of every control sequence. */
  const Esc: char := '\U{1B}'
  /** CSI, the control sequence introducer ESC [. */
  const Csi: string := [Esc, '[']

  predicate IsDigit(c: char) { '0' <= c <= '9' }

  predicate AllDigits(s: string) { forall i :: 0 <= i < |s| ==> IsDigit(s[i]) }

  /** Parameter and intermediate bytes: 02/00 to 03/15. */
  predicate IsParamByte(c: char) { ' ' <= c <= '?' }

  /** Final bytes: 04/00 to 07/14. */
  predicate IsFinalByte(c: char) { '@' <= c <= '~' }

  function DigitChar(d: nat): (c: char)
    requires d < 10
    ensures IsDigit(c)
  {
    ('0' as int + d) as char
  }

  /** The decimal numeral of n, as a stream insertion of an int writes it. */
  function Decimal(n: nat): (s: string)
    ensures |s| > 0 && AllDigits(s)
  {
    if n < 10 then [DigitChar(n)] else Decimal(n / 10) + [DigitChar(n % 10)]
  }

  /** The number a string of decimal digits denotes. */
  function Value(s: string): nat
    requires AllDigits(s)
  {
    if s == [] then 0 else Value(s[..|s| - 1]) * 10 + (s[|s| - 1] as int - '0' as int)
  }

  lemma {:induction false} ValueOfDecimal(n: nat)
    ensures Value(Decimal(n)) == n
  {
    if n >= 10 {
      var s := Decimal(n);
      assert s[..|s| - 1] == Decimal(n / 10);
      ValueOfDecimal(n / 10);
    }
  }

  /** The parameter string "p1;p2;...;pk". */
  function Params(ps: seq<nat>): (s: string)
    requires |ps| > 0
    ensures |s| > 0 && forall i :: 0 <= i < |s| ==> IsParamByte(s[i])
  {
    if |ps| == 1 then Decimal(ps[0]) else Decimal(ps[0]) + ";" + Params(ps[1..])
  }

  /** SGR with the parameters ps: CSI p1;...;pk m. */
  function Sequence(ps: seq<nat>): string
    requires |ps| > 0
  {
    Csi + Params(ps) + "m"
  }

  // ---------------------------------------------------------------- decoding

  /** The length of the longest prefix of s made of decimal digits. */
  function DigitRun(s: string): (n: nat)
    ensures n <= |s| && AllDigits(s[..n]) && (n < |s| ==> !IsDigit(s[n]))
  {
    if s == [] || !IsDigit(s[0]) then 0
    else
      var m := DigitRun(s[1..]);
      assert s[..1 + m] == [s[0]] + s[1..][..m];
      1 + m
  }

  /** Reads "p1;...;pk m" at the start of s: the parameters and what follows the 'm'. */
  function ParseParams(s: string): (r: Option<(seq<nat>, string)>)
    ensures r.Some? ==> |r.value.0| > 0 && |r.value.1| < |s|
    decreases |s|
  {
    var n := DigitRun(s);
    if n == 0 || n == |s| then None
    else if s[n] == 'm' then Some(([Value(s[..n])], s[n + 1..]))
    else if s[n] == ';' then
      match ParseParams(s[n + 1..])
      case None => None
      case Some(r) => Some(([Value(s[..n])] + r.0, r.1))
    else None
  }

  /** The parameter lists of s when s is nothing but SGR control functions. */
  function Decode(s: string): Option<seq<seq<nat>>>
    decreases |s|
  {
    if s == [] then Some([])
    else if |s| < 2 || s[0] != Esc || s[1] != '[' then None
    else
      match ParseParams(s[2..])
      case None => None
      case Some(r) =>
        match Decode(r.1)
        case None => None
        case Some(rest) => Some([r.0] + rest)
  }

  lemma {:induction false} DigitRunOf(a: string, t: string)
    requires AllDigits(a) && (t == [] || !IsDigit(t[0]))
    ensures DigitRun(a + t) == |a|
    decreases |a|
  {
    if a == [] {
      assert a + t == t;
    } else {
      assert (a + t)[1..] == a[1..] + t;
      DigitRunOf(a[1..], t);
    }
  }

  lemma {:induction false} ParseParamsOf(ps: seq<nat>, rest: string)
    requires |ps| > 0
    ensures ParseParams(Params(ps) + "m" + rest) == Some((ps, rest))
    decreases |ps|
  {
    var d := Decimal(ps[0]);
    var s := Params(ps) + "m" + rest;
    ValueOfDecimal(ps[0]);
    if |ps| == 1 {
      assert s == d + ("m" + rest);
      DigitRunOf(d, "m" + rest);
      assert s[..|d|] == d && s[|d|] == 'm';
      assert s[|d| + 1..] == rest;
      assert ps == [ps[0]];
    } else {
      var tail := Params(ps[1..]) + "m" + rest;
      assert s == d + (";" + tail);
      DigitRunOf(d, ";" + tail);
      assert s[..|d|] == d;
      assert s[|d| + 1..] == tail;
      ParseParamsOf(ps[1..], rest);
      assert [ps[0]] + ps[1..] == ps;
    }
  }

  /** Decoding an encoded SGR sequence gives back its parameters, followed by what the rest decodes to. */
  lemma DecodeSequence(ps: seq<nat>, rest: string)
    requires |ps| > 0
    ensures Decode(Sequence(ps) + rest) ==
              match Decode(rest)
              case None => None
              case Some(r) => Some([ps] + r)
  {
    var s := Sequence(ps) + rest;
    assert s[2..] == Params(ps) + "m" + rest;
    ParseParamsOf(ps, rest);
  }

  // ---------------------------------------------------------------- meaning

  /** The eight colours, in the order of parameters 30..37 and 90..97. */
  datatype Colour = Black | Red | Green | Yellow | Blue | Magenta | Cyan | White

  const Colours: seq<Colour> := [Black, Red, Green, Yellow, Blue, Magenta, Cyan, White]

  /** Parameters 1 (bold), 2 (faint) and 22 (normal) choose one value of the same aspect. */
  datatype Weight = Normal | Bold | Faint

  /** 90..97 are the bright foreground colours, an extension beyond ECMA-48. */
  datatype Foreground = DefaultForeground | Standard(colour: Colour) | Bright(colour: Colour)

  datatype Rendition = Rendition(weight: Weight, foreground: Foreground)

  const Default: Rendition := Rendition(Normal, DefaultForeground)

  /** The effect of one SGR parameter; parameters outside this list leave the rendition as it is. */
  function Select(r: Rendition, p: nat): Rendition
  {
    if p == 0 then Default
    else if p == 1 then r.(weight := Bold)
    else if p == 2 then r.(weight := Faint)
    else if p == 22 then r.(weight := Normal)
    else if 30 <= p <= 37 then r.(foreground := Standard(Colours[p - 30]))
    else if p == 39 then r.(foreground := DefaultForeground)
    else if 90 <= p <= 97 then r.(foreground := Bright(Colours[p - 90]))
    else r
  }

  function SelectAll(r: Rendition, ps: seq<nat>): Rendition
    decreases |ps|
  {
    if ps == [] then r else SelectAll(Select(r, ps[0]), ps[1..])
  }

  function ApplyAll(r: Rendition, seqs: seq<seq<nat>>): Rendition
    decreases |seqs|
  {
    if seqs == [] then r else ApplyAll(SelectAll(r, seqs[0]), seqs[1..])
  }

  /** The rendition a terminal in rendition r is left in by s, when s is nothing but SGR sequences. */
  function Effect(r: Rendition, s: string): Option<Rendition>
  {
    match Decode(s)
    case None => None
    case Some(seqs) => Some(ApplyAll(r, seqs))
  }

  // ---------------------------------------------------------------- displayed text

  /** The length of the longest prefix of s made of parameter and intermediate bytes. */
  function ParamRun(s: string): (n: nat)
    ensures n <= |s| && (n < |s| ==> !IsParamByte(s[n]))
  {
    if s == [] || !IsParamByte(s[0]) then 0 else 1 + ParamRun(s[1..])
  }

  /** The length of the complete control sequence CSI P..P F at the start of s, or 0 if none is there. */
  function CsiLength(s: string): (n: nat)
    ensures n == 0 || 3 <= n <= |s|
  {
    if |s| < 2 || s[0] != Esc || s[1] != '[' then 0
    else
      var p := 2 + ParamRun(s[2..]);
      if p < |s| && IsFinalByte(s[p]) then p + 1 else 0
  }

  /** The characters of s a terminal displays: s without its complete control sequences. */
  function Strip(s: string): string
    decreases |s|
  {
    if s == [] then []
    else if CsiLength(s) > 0 then Strip(s[CsiLength(s)..])
    else [s[0]] + Strip(s[1..])
  }

  lemma {:induction false} ParamRunOf(body: string, t: string)
    requires forall i :: 0 <= i < |body| ==> IsParamByte(body[i])
    requires t == [] || !IsParamByte(t[0])
    ensures ParamRun(body + t) == |body|
    decreases |body|
  {
    if body == [] {
      assert body + t == t;
    } else {
      assert (body + t)[1..] == body[1..] + t;
      ParamRunOf(body[1..], t);
    }
  }

  /** A complete control sequence CSI body final displays nothing. */
  lemma StripCsi(body: string, final: char, rest: string)
    requires forall i :: 0 <= i < |body| ==> IsParamByte(body[i])
    requires IsFinalByte(final)
    ensures Strip(Csi + body + [final] + rest) == Strip(rest)
  {
    var s := Csi + body + [final] + rest;
    assert s[2..] == body + ([final] + rest);
    ParamRunOf(body, [final] + rest);
    assert CsiLength(s) == |body| + 3;
    assert s[|body| + 3..] == rest;
  }

  /** An SGR sequence displays nothing. */
  lemma StripSequence(ps: seq<nat>, rest: string)
    requires |ps| > 0
    ensures Strip(Sequence(ps) + rest) == Strip(rest)
  {
    StripCsi(Params(ps), 'm', rest);
  }

  /** A character other than ESC is displayed as it is. */
  lemma StripChar(c: char, rest: string)
    requires c != Esc
    ensures Strip([c] + rest) == [c] + Strip(rest)
  {
    assert ([c] + rest)[1..] == rest;
  }
}
