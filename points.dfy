/** The detections-file line parser shared by the stroke-rate estimator and
    the ON/OFF classifier: each non-blank line is stripped and matched at its
    start against `\((\d+),\s*([0-9.]+)\)`; the first group goes through int()
    and the second through float().  A file is given as its sequence of lines. */
module Points {
  import opened Results

  /** Characters that str.strip() removes and that the regex class `\s` matches. */
  predicate IsSpace(c: char)
  {
    c == ' ' || ('\t' <= c <= '\r') || ('\U{1C}' <= c <= '\U{1F}')
    || c == '\U{85}' || c == '\U{A0}' || c == '\U{1680}' || ('\U{2000}' <= c <= '\U{200A}')
    || c == '\U{2028}' || c == '\U{2029}' || c == '\U{202F}' || c == '\U{205F}' || c == '\U{3000}'
  }

  predicate IsDigit(c: char) { '0' <= c <= '9' }

  /** The regex class `[0-9.]`. */
  predicate IsNumChar(c: char) { IsDigit(c) || c == '.' }

  predicate AllDigits(s: string) { forall i :: 0 <= i < |s| ==> IsDigit(s[i]) }

  predicate AllSpace(s: string) { forall i :: 0 <= i < |s| ==> IsSpace(s[i]) }

  predicate AllNumChars(s: string) { forall i :: 0 <= i < |s| ==> IsNumChar(s[i]) }

  /** The three character classes the record pattern repeats. */
  datatype CharClass = Digits | Spaces | NumChars

  predicate InClass(p: CharClass, c: char)
  {
    match p
    case Digits => IsDigit(c)
    case Spaces => IsSpace(c)
    case NumChars => IsNumChar(c)
  }

  /** Length of the longest prefix of `s` whose characters are in class `p`:
      what a greedy regex repetition consumes. */
  function Span(s: string, p: CharClass): (n: nat)
    ensures n <= |s|
    ensures forall i :: 0 <= i < n ==> InClass(p, s[i])
    ensures n < |s| ==> !InClass(p, s[n])
  {
    SpanFrom(s, p, 0)
  }

  /** The greedy run continued from position k, all of whose predecessors are
      already in the class. */
  function SpanFrom(s: string, p: CharClass, k: nat): (n: nat)
    requires k <= |s|
    requires forall i :: 0 <= i < k ==> InClass(p, s[i])
    ensures k <= n <= |s|
    ensures forall i :: 0 <= i < n ==> InClass(p, s[i])
    ensures n < |s| ==> !InClass(p, s[n])
    decreases |s| - k
  {
    if k == |s| || !InClass(p, s[k]) then k else SpanFrom(s, p, k + 1)
  }

  /** str.rstrip(): drops trailing whitespace. */
  function RStrip(s: string): (r: string)
    ensures |r| <= |s| && r == s[..|r|]
    ensures r == [] || !IsSpace(r[|r| - 1])
    ensures forall i :: |r| <= i < |s| ==> IsSpace(s[i])
  {
    if s == [] || !IsSpace(s[|s| - 1]) then s else RStrip(s[..|s| - 1])
  }

  /** str.strip(): drops leading and trailing whitespace.  The result is a
      slice of `s` that neither starts nor ends with white space, and only
      white space lies outside it. */
  function Strip(s: string): (r: string)
    ensures |r| <= |s|
  {
    RStrip(s[Span(s, Spaces)..])
  }

  /** The stripped line is a slice of the line that neither starts nor ends
      with white space, and only white space lies outside it. */
  lemma StripSlice(s: string)
    ensures var r := Strip(s);
      (r == [] || (!IsSpace(r[0]) && !IsSpace(r[|r| - 1]))) &&
      exists i :: 0 <= i <= |s| - |r| && r == s[i..][..|r|] &&
        (forall j :: 0 <= j < i ==> IsSpace(s[j])) &&
        (forall j :: i + |r| <= j < |s| ==> IsSpace(s[j]))
  {
    var i := Span(s, Spaces);
    var r := RStrip(s[i..]);
    assert r == s[i..i + |r|];
    assert r != [] ==> r[0] == s[i];
  }

  /** The two groups of `\((\d+),\s*([0-9.]+)\)` when it matches at the start
      of `t` (re.match anchors at the start only; whatever follows the closing
      parenthesis is ignored).  Every repetition is greedy and no backtracking
      can change the outcome, because each repeated class excludes the
      character that must follow it. */
  function MatchRecord(t: string): (m: Option<(string, string)>)
    ensures m.Some? ==> |m.value.0| > 0 && AllDigits(m.value.0)
    ensures m.Some? ==> |m.value.1| > 0 && AllNumChars(m.value.1)
  {
    if |t| == 0 || t[0] != '(' then None else MatchFrame(t[1..])
  }

  /** After the parenthesis: the frame digits, which must stop at a comma. */
  function MatchFrame(a: string): (m: Option<(string, string)>)
  {
    var nd := Span(a, Digits);
    if nd == 0 || nd == |a| || a[nd] != ',' then None
    else
      var n := MatchNumber(a[nd + 1..]);
      if n.None? then None else Some((a[..nd], n.value))
  }

  /** After the comma: white space, then the number, which must stop at the
      closing parenthesis. */
  function MatchNumber(b: string): (n: Option<string>)
  {
    var c := b[Span(b, Spaces)..];
    var nn := Span(c, NumChars);
    if nn == 0 || nn == |c| || c[nn] != ')' then None else Some(c[..nn])
  }

  /** The text the record pattern matches: `(`, the frame digits, a comma,
      white space, the number and `)`. */
  function RecordText(d: string, w: string, n: string): string
  {
    "(" + (d + ("," + (w + (n + ")"))))
  }

  /** A match covers the start of the line: `(`, the first group, a comma,
      white space, the second group and `)`. */
  lemma MatchRecordSound(t: string)
    requires MatchRecord(t).Some?
    ensures var m := MatchRecord(t).value;
      exists w :: AllSpace(w) && RecordText(m.0, w, m.1) <= t
  {
    var m := MatchFrame(t[1..]).value;
    assert MatchRecord(t) == Some(m);
    MatchFrameSound(t[1..]);
    var w :| AllSpace(w) && m.0 + ("," + (w + (m.1 + ")"))) <= t[1..];
    PrefixStep(t, 0, '(', m.0 + ("," + (w + (m.1 + ")"))));
    assert t[..0] == [];
    assert AllSpace(w) && RecordText(m.0, w, m.1) <= t;
  }

  lemma MatchFrameSound(a: string)
    requires MatchFrame(a).Some?
    ensures var m := MatchFrame(a).value;
      exists w :: AllSpace(w) && m.0 + ("," + (w + (m.1 + ")"))) <= a
  {
    var nd := Span(a, Digits);
    MatchFrameParts(a);
    var n := MatchNumber(a[nd + 1..]).value;
    MatchNumberSound(a[nd + 1..]);
    var w :| AllSpace(w) && w + (n + ")") <= a[nd + 1..];
    PrefixStep(a, nd, ',', w + (n + ")"));
    assert AllSpace(w) && a[..nd] + ("," + (w + (n + ")"))) <= a;
  }

  lemma MatchFrameParts(a: string)
    requires MatchFrame(a).Some?
    ensures var nd := Span(a, Digits);
      nd < |a| && a[nd] == ',' && MatchNumber(a[nd + 1..]).Some? &&
      MatchFrame(a).value == (a[..nd], MatchNumber(a[nd + 1..]).value)
  {
  }

  lemma MatchNumberSound(b: string)
    requires MatchNumber(b).Some?
    ensures exists w :: AllSpace(w) && w + (MatchNumber(b).value + ")") <= b
  {
    var sw := Span(b, Spaces);
    var c := b[sw..];
    var nn := Span(c, NumChars);
    assert MatchNumber(b) == Some(c[..nn]);
    assert c[..nn] + ")" <= c by { assert c[..nn + 1] == c[..nn] + ")"; }
    PrefixJoin(b, sw, c[..nn] + ")");
    assert AllSpace(b[..sw]) && b[..sw] + (c[..nn] + ")") <= b;
  }

  /** A character found at position i, followed by a prefix of what comes
      after it, continues the text before i. */
  lemma PrefixStep(a: string, i: nat, c: char, p: string)
    requires i < |a| && a[i] == c && p <= a[i + 1..]
    ensures a[..i] + ([c] + p) <= a
  {
    var q := a[..i] + ([c] + p);
    forall k | 0 <= k < |q|
      ensures q[k] == a[k]
    {
      if k > i {
        assert q[k] == p[k - i - 1] == a[i + 1..][k - i - 1];
      }
    }
  }

  /** The text before i followed by a prefix of the text from i is a prefix. */
  lemma PrefixJoin(a: string, i: nat, p: string)
    requires i <= |a| && p <= a[i..]
    ensures a[..i] + p <= a
  {
    var q := a[..i] + p;
    forall k | 0 <= k < |q|
      ensures q[k] == a[k]
    {
      if k >= i {
        assert q[k] == p[k - i] == a[i..][k - i];
      }
    }
  }

  /** Conversely, a line that starts with `(`, a digit run, a comma, white
      space, a run of digits and dots and `)` matches with exactly those two
      runs as its groups. */
  lemma MatchRecordComplete(t: string, d: string, w: string, n: string)
    requires |d| > 0 && AllDigits(d) && AllSpace(w) && |n| > 0 && AllNumChars(n)
    requires RecordText(d, w, n) <= t
    ensures MatchRecord(t) == Some((d, n))
  {
    var p := RecordText(d, w, n);
    var rest := t[|p|..];
    assert t == p + rest;
    assert t[1..] == d + (("," + (w + (n + ")"))) + rest);
    MatchFrameComplete(d, w, n, rest);
  }

  /** The frame stage reads the digit run up to the comma, then hands the
      rest to the number stage. */
  lemma MatchFrameComplete(d: string, w: string, n: string, rest: string)
    requires |d| > 0 && AllDigits(d) && AllSpace(w) && |n| > 0 && AllNumChars(n)
    ensures MatchFrame(d + (("," + (w + (n + ")"))) + rest)) == Some((d, n))
  {
    var a := d + (("," + (w + (n + ")"))) + rest);
    MatchDigits(d, ("," + (w + (n + ")"))) + rest);
    assert a[|d| + 1..] == w + ((n + ")") + rest);
    MatchNumberComplete(w, n, rest);
  }

  /** The number stage skips the white space and reads the run of digits
      and dots up to the closing parenthesis. */
  lemma MatchNumberComplete(w: string, n: string, rest: string)
    requires AllSpace(w) && |n| > 0 && AllNumChars(n)
    ensures MatchNumber(w + ((n + ")") + rest)) == Some(n)
  {
    var b := w + ((n + ")") + rest);
    assert b[..|w|] == w;
    SpanOfPrefix(b, w, Spaces);
    var c := b[|w|..];
    assert c == n + (")" + rest);
    assert c[..|n|] == n;
    SpanOfPrefix(c, n, NumChars);
  }

  function DigitValue(c: char): nat
    requires IsDigit(c)
  {
    c as int - '0' as int
  }

  /** int() of a run of decimal digits. */
  function DigitsValue(s: string): (n: nat)
    requires AllDigits(s)
    ensures n < Pow10(|s|)
  {
    if s == [] then 0 else 10 * DigitsValue(s[..|s| - 1]) + DigitValue(s[|s| - 1])
  }

  function Pow10(k: nat): (r: nat)
    ensures r >= 1
  {
    if k == 0 then 1 else 10 * Pow10(k - 1)
  }

  predicate HasDigit(s: string) { exists i :: 0 <= i < |s| && IsDigit(s[i]) }

  predicate AtMostOneDot(s: string)
  {
    forall i, j :: 0 <= i < j < |s| && s[i] == '.' ==> s[j] != '.'
  }

  /** float() of a text made of digits and dots: accepted exactly when it has
      at most one dot and at least one digit ("12", "12.", ".5", "12.50");
      "." and "1.2.3" make float() raise.  The value is exact (no rounding). */
  function DecimalValue(s: string): (r: Option<real>)
    requires AllNumChars(s)
    ensures r.Some? <==> HasDigit(s) && AtMostOneDot(s)
  {
    var k := Span(s, Digits);
    if k == |s| then
      if k == 0 then None else assert IsDigit(s[0]); Some(DigitsValue(s) as real)
    else
      assert !IsDigit(s[k]) && IsNumChar(s[k]);
      var frac := s[k + 1..];
      var f := Span(frac, Digits);
      if f < |frac| then
        assert !IsDigit(frac[f]) && IsNumChar(frac[f]);
        assert s[k + 1 + f] == frac[f] == '.';
        None
      else if k == 0 && frac == [] then
        assert s == ".";
        None
      else
        assert k == 0 ==> IsDigit(s[1]);
        assert k > 0 ==> IsDigit(s[0]);
        assert AllDigits(frac);
        Some(DigitsValue(s[..k]) as real + DigitsValue(frac) as real / Pow10(|frac|) as real)
  }

  /** What one line contributes: nothing, a sample, or the ValueError that
      float() raises on a matched number such as "1.2.3". */
  datatype LineResult = Skip | Record(frame: nat, y: real) | Malformed

  function ParseLine(line: string): (r: LineResult)
    ensures r != Skip ==> MatchRecord(Strip(line)).Some?
  {
    var t := Strip(line);
    if t == [] then Skip
    else
      match MatchRecord(t)
      case None => Skip
      case Some((d, n)) =>
        match DecimalValue(n)
        case None => Malformed
        case Some(v) => Record(DigitsValue(d), v)
  }

  /** A stripped line that does not match is skipped; one that matches is a
      sample with int() of its first group and float() of its second, or
      malformed exactly when float() rejects the second group. */
  lemma ParseLineCases(line: string)
    ensures var r, m := ParseLine(line), MatchRecord(Strip(line));
      (r == Skip <==> m.None?) &&
      (r == Malformed <==> m.Some? && DecimalValue(m.value.1).None?) &&
      (r.Record? ==> r == Record(DigitsValue(m.value.0), DecimalValue(m.value.1).value))
  {
  }

  /** The two parallel arrays load_points returns. */
  datatype Samples = Samples(frames: seq<nat>, ys: seq<real>)

  /** The outcome of every line. */
  function Outcomes(lines: seq<string>): (rs: seq<LineResult>)
    ensures |rs| == |lines|
    ensures forall k :: 0 <= k < |lines| ==> rs[k] == ParseLine(lines[k])
  {
    seq(|lines|, k requires 0 <= k < |lines| => ParseLine(lines[k]))
  }

  /** The appending loop of load_points over the line outcomes: the records
      in file order, or the error of the first malformed line. */
  function Gather(rs: seq<LineResult>): (r: Result<Samples>)
    ensures r.Ok? ==> |r.value.frames| == |r.value.ys| <= |rs|
    ensures r.Err? ==> exists k :: 0 <= k < |rs| && r.error == BadNumber(k) && rs[k] == Malformed
  {
    if rs == [] then Ok(Samples([], []))
    else
      var last := |rs| - 1;
      match Gather(rs[..last])
      case Err(e) =>
        assert forall k :: 0 <= k < last ==> rs[..last][k] == rs[k];
        Err(e)
      case Ok(acc) =>
        match rs[last]
        case Skip => Ok(acc)
        case Malformed => Err(BadNumber(last))
        case Record(f, v) => Ok(Samples(acc.frames + [f], acc.ys + [v]))
  }

  /** load_points over the lines of an existing file. */
  function Parsed(lines: seq<string>): (r: Result<Samples>)
    ensures r.Ok? ==> |r.value.frames| == |r.value.ys| <= |lines|
    ensures r.Err? ==> exists k :: 0 <= k < |lines| && r.error == BadNumber(k) && ParseLine(lines[k]) == Malformed
  {
    Gather(Outcomes(lines))
  }

  /** The first malformed line fails the load, and a load fails only
      because of such a line. */
  lemma {:induction false} GatherFirstError(rs: seq<LineResult>)
    ensures var r := Gather(rs);
      (r.Err? <==> Malformed in rs) &&
      (r.Err? ==> r.error.line < |rs| && rs[r.error.line] == Malformed && Malformed !in rs[..r.error.line])
  {
    if rs != [] {
      var last := |rs| - 1;
      GatherFirstError(rs[..last]);
      assert rs == rs[..last] + [rs[last]];
      var r := Gather(rs[..last]);
      if r.Err? {
        assert rs[..r.error.line] == rs[..last][..r.error.line];
      }
    }
  }

  /** The positions of the sample lines among the outcomes, in order. */
  function RecordPositions(rs: seq<LineResult>): (ps: seq<nat>)
    ensures forall j :: 0 <= j < |ps| ==> ps[j] < |rs| && rs[ps[j]].Record?
    ensures forall i, j :: 0 <= i < j < |ps| ==> ps[i] < ps[j]
    ensures forall k :: 0 <= k < |rs| && rs[k].Record? ==> k in ps
  {
    if rs == [] then []
    else
      var last := |rs| - 1;
      RecordPositions(rs[..last]) + if rs[last].Record? then [last] else []
  }

  /** What a successful load returns: one sample per record line, in file
      order, each carrying that line's frame and value. */
  lemma {:induction false} GatherSamples(rs: seq<LineResult>)
    requires Gather(rs).Ok?
    ensures var r, ps := Gather(rs).value, RecordPositions(rs);
      |r.frames| == |ps| &&
      forall j :: 0 <= j < |ps| ==> rs[ps[j]] == Record(r.frames[j], r.ys[j])
  {
    if rs != [] {
      var last := |rs| - 1;
      GatherSamples(rs[..last]);
    }
  }

  /** The line loop of load_points, appending to `frames` and `ys`. */
  method ParseLines(lines: seq<string>) returns (r: Result<Samples>)
    ensures r == Parsed(lines)
  {
    var frames: seq<nat> := [];
    var ys: seq<real> := [];
    ghost var rs := Outcomes(lines);
    var k := 0;
    while k < |lines|
      invariant 0 <= k <= |lines|
      invariant Gather(rs[..k]) == Ok(Samples(frames, ys))
    {
      assert rs[..k + 1][..k] == rs[..k];
      var line := ParseLine(lines[k]);
      if line.Malformed? {
        r := Err(BadNumber(k));
        GatherErrorPersists(rs, k + 1);
        return;
      }
      if line.Record? {
        frames := frames + [line.frame];
        ys := ys + [line.y];
      }
      k := k + 1;
    }
    assert rs[..k] == rs;
    r := Ok(Samples(frames, ys));
  }

  /** Once a prefix fails, the whole file fails with the same error. */
  lemma {:induction false} GatherErrorPersists(rs: seq<LineResult>, k: nat)
    requires k <= |rs| && Gather(rs[..k]).Err?
    ensures Gather(rs) == Gather(rs[..k])
  {
    if k == |rs| {
      assert rs[..k] == rs;
    } else {
      var p := rs[..|rs| - 1];
      assert p[..k] == rs[..k];
      GatherErrorPersists(p, k);
    }
  }

  function DigitChar(d: nat): (c: char)
    requires d < 10
    ensures IsDigit(c) && DigitValue(c) == d
  {
    ('0' as int + d) as char
  }

  /** str() of a natural number. */
  function NatText(n: nat): (s: string)
    ensures |s| > 0 && AllDigits(s)
    ensures DigitsValue(s) == n
  {
    if n < 10 then [DigitChar(n)]
    else
      var p := NatText(n / 10);
      var s := p + [DigitChar(n % 10)];
      assert s[..|s| - 1] == p;
      s
  }

  /** A number written with a decimal point, as Python's repr of a float
      coordinate writes it ("407.0", "317.25"). */
  datatype Decimal = Decimal(whole: nat, frac: string)

  predicate ValidDecimal(x: Decimal) { |x.frac| > 0 && AllDigits(x.frac) }

  function DecimalText(x: Decimal): string
  {
    NatText(x.whole) + "." + x.frac
  }

  function Value(x: Decimal): real
    requires ValidDecimal(x)
  {
    x.whole as real + DigitsValue(x.frac) as real / Pow10(|x.frac|) as real
  }

  /** The line the detector writes for one sample: "(frame, y)". */
  function RecordLine(frame: nat, y: Decimal): string
  {
    RecordText(NatText(frame), " ", DecimalText(y))
  }

  /** Parsing a written sample line gives back the sample. */
  lemma RecordLineRoundTrip(frame: nat, y: Decimal)
    requires ValidDecimal(y)
    ensures ParseLine(RecordLine(frame, y)) == Record(frame, Value(y))
  {
    var line := RecordLine(frame, y);
    DecimalTextValue(y);
    assert line[0] == '(' && line[|line| - 1] == ')';
    StripUnchanged(line);
    MatchRecordComplete(line, NatText(frame), " ", DecimalText(y));
  }

  /** A line that starts and ends with non-blank characters is its own strip. */
  lemma StripUnchanged(line: string)
    requires |line| > 0 && !IsSpace(line[0]) && !IsSpace(line[|line| - 1])
    ensures Strip(line) == line
  {
    assert Span(line, Spaces) == 0;
    assert line[0..] == line;
  }

  /** The frame group: the digit run of d + rest stops at the comma. */
  lemma MatchDigits(d: string, rest: string)
    requires |d| > 0 && AllDigits(d) && |rest| > 0 && rest[0] == ','
    ensures var a := d + rest;
      Span(a, Digits) == |d| && a[..|d|] == d && a[|d|] == ','
  {
    var a := d + rest;
    assert a[..|d|] == d;
    SpanOfPrefix(a, d, Digits);
  }

  lemma DecimalTextValue(y: Decimal)
    requires ValidDecimal(y)
    ensures AllNumChars(DecimalText(y))
    ensures DecimalValue(DecimalText(y)) == Some(Value(y))
  {
    var wt := NatText(y.whole);
    var s := DecimalText(y);
    SpanOfPrefix(s, wt, Digits);
    assert s[..|wt|] == wt;
    assert s[|wt| + 1..] == y.frac;
    SpanOfPrefix(y.frac + ")", y.frac, Digits);
    assert Span(y.frac, Digits) == |y.frac|;
  }

  /** When `s` starts with `u`, whose characters all satisfy `p`, followed by
      one that does not (or by nothing), the greedy run is exactly `u`. */
  lemma {:induction false} SpanOfPrefix(s: string, u: string, p: CharClass)
    requires |u| <= |s| && s[..|u|] == u
    requires forall i :: 0 <= i < |u| ==> InClass(p, u[i])
    requires |u| < |s| ==> !InClass(p, s[|u|])
    ensures Span(s, p) == |u|
  {
    if u != [] {
      assert s[1..][..|u| - 1] == u[1..];
      SpanOfPrefix(s[1..], u[1..], p);
    }
  }

  /** The lines the detector writes for a list of samples. */
  function RecordLines(frames: seq<nat>, ys: seq<Decimal>): (lines: seq<string>)
    requires |frames| == |ys|
    ensures |lines| == |frames|
  {
    seq(|frames|, k requires 0 <= k < |frames| => RecordLine(frames[k], ys[k]))
  }

  /** The values of a list of written decimals. */
  function Values(ys: seq<Decimal>): (vs: seq<real>)
    requires forall k :: 0 <= k < |ys| ==> ValidDecimal(ys[k])
    ensures |vs| == |ys|
  {
    if ys == [] then [] else Values(ys[..|ys| - 1]) + [Value(ys[|ys| - 1])]
  }

  /** Round trip of the file format: parsing what the detector writes returns
      every sample, in order. */
  lemma {:induction false} RecordLinesRoundTrip(frames: seq<nat>, ys: seq<Decimal>)
    requires |frames| == |ys|
    requires forall k :: 0 <= k < |ys| ==> ValidDecimal(ys[k])
    ensures Parsed(RecordLines(frames, ys)) == Ok(Samples(frames, Values(ys)))
  {
    var lines := RecordLines(frames, ys);
    if frames != [] {
      var n := |frames| - 1;
      var rs := Outcomes(lines);
      assert frames == frames[..n] + [frames[n]];
      assert lines[..n] == RecordLines(frames[..n], ys[..n]);
      assert rs[..n] == Outcomes(lines[..n]);
      RecordLinesRoundTrip(frames[..n], ys[..n]);
      RecordLineRoundTrip(frames[n], ys[n]);
      assert rs[n] == Record(frames[n], Value(ys[n]));
    }
  }
}
