/** Run-length coding (`rle_encode` and `rle_decode` in python_utils/utils.py).

    A string is cut into its maximal runs of equal adjacent characters; the
    encoding writes each run as its character followed by the decimal form of
    its length. Decoding reads a character, then greedily every digit after
    it, and repeats the character that many times. A digit is an ASCII
    character '0'..'9'. */
module RunLength {

  /** The two ways the source fails: `s[0]` on an empty string in the
      encoder, and `int('')` in the decoder when a character has no digits
      after it. */
  datatype Error = EmptyInput | MissingCount

  datatype Result<T> = Ok(value: T) | Err(error: Error)

  /** A run: `count` copies of `ch`. */
  datatype Run = Run(ch: char, count: nat)

  predicate IsDigit(c: char) {
    '0' <= c <= '9'
  }

  predicate AllDigits(s: string) {
    forall k :: 0 <= k < |s| ==> IsDigit(s[k])
  }

  predicate NoDigits(s: string) {
    forall k :: 0 <= k < |s| ==> !IsDigit(s[k])
  }

  function DigitChar(d: nat): char
    requires d < 10
  {
    ('0' as int + d) as char
  }

  /** `str(n)`: the decimal form of `n`, which is never empty, holds digits
      only, and starts with `'0'` only for zero itself. */
  function Decimal(n: nat): (r: string)
    ensures r != [] && AllDigits(r)
    ensures (r[0] == '0') == (n == 0)
    decreases n
  {
    if n < 10 then [DigitChar(n)] else Decimal(n / 10) + [DigitChar(n % 10)]
  }

  /** `10` to the power `n`. */
  function Pow10(n: nat): (r: nat)
    ensures r >= 1
  {
    if n == 0 then 1 else 10 * Pow10(n - 1)
  }

  /** `int(ds)` for a string of decimal digits: a value below `10` to the
      power of the number of digits. */
  function DigitsValue(ds: string): (r: nat)
    requires AllDigits(ds)
    ensures r < Pow10(|ds|)
  {
    if ds == [] then 0
    else 10 * DigitsValue(ds[..|ds| - 1]) + (ds[|ds| - 1] as int - '0' as int)
  }

  /** Reading back the decimal form of `n` gives `n`. */
  lemma {:induction false} DecimalValue(n: nat)
    ensures DigitsValue(Decimal(n)) == n
    decreases n
  {
    var d := Decimal(n);
    if n >= 10 {
      DecimalValue(n / 10);
      assert d[..|d| - 1] == Decimal(n / 10);
    }
  }

  /** `c * n`: the character `c` repeated `n` times. */
  function Repeat(c: char, n: nat): (r: string)
    ensures |r| == n && forall k :: 0 <= k < n ==> r[k] == c
  {
    if n == 0 then [] else Repeat(c, n - 1) + [c]
  }

  lemma RepeatSnoc(c: char, n: nat)
    ensures Repeat(c, n + 1) == Repeat(c, n) + [c]
    ensures Repeat(c, 1) == [c]
  {
    assert Repeat(c, 0) + [c] == [c];
  }

  /** The text of a run list: each run's character repeated its count. */
  function Expand(runs: seq<Run>): string {
    if runs == [] then []
    else Expand(runs[..|runs| - 1]) + Repeat(runs[|runs| - 1].ch, runs[|runs| - 1].count)
  }

  /** The encoding of a run list: each run's character followed by the
      decimal form of its count. */
  function Render(runs: seq<Run>): string {
    if runs == [] then []
    else Render(runs[..|runs| - 1]) + [runs[|runs| - 1].ch] + Decimal(runs[|runs| - 1].count)
  }

  /** Every run is non-empty and neighbouring runs hold different
      characters, so no run can be extended. */
  ghost predicate Maximal(runs: seq<Run>) {
    && (forall k :: 0 <= k < |runs| ==> runs[k].count >= 1)
    && (forall j, k :: 0 <= j && k == j + 1 && k < |runs| ==> runs[j].ch != runs[k].ch)
  }

  /** The maximal runs of `s`, built left to right: a character equal to the
      last run's character lengthens that run, any other starts a new one. */
  function Runs(s: string): (r: seq<Run>)
    ensures (r == []) == (s == [])
    ensures s != [] ==> r[|r| - 1].ch == s[|s| - 1]
    decreases |s|
  {
    if s == [] then []
    else
      Extend(Runs(s[..|s| - 1]), s[|s| - 1])
  }

  /** How `Runs` extends by one character. */
  lemma RunsSnoc(init: string, c: char)
    ensures Runs(init + [c]) == Extend(Runs(init), c)
  {
    assert (init + [c])[..|init|] == init;
  }

  /** The runs after appending `c`: the last run grows when it holds `c`,
      and a new run of one `c` is added otherwise. */
  function Extend(prev: seq<Run>, c: char): seq<Run> {
    if prev != [] && prev[|prev| - 1].ch == c then
      prev[..|prev| - 1] + [Run(c, prev[|prev| - 1].count + 1)]
    else
      prev + [Run(c, 1)]
  }

  lemma ExpandSnoc(init: seq<Run>, x: Run)
    ensures Expand(init + [x]) == Expand(init) + Repeat(x.ch, x.count)
  {
    assert (init + [x])[..|init|] == init;
  }

  lemma RenderSnoc(init: seq<Run>, x: Run)
    ensures Render(init + [x]) == Render(init) + [x.ch] + Decimal(x.count)
  {
    assert (init + [x])[..|init|] == init;
  }

  /** The runs of `s` are maximal. */
  lemma {:induction false} RunsMaximal(s: string)
    ensures Maximal(Runs(s))
    decreases |s|
  {
    if s != [] {
      var init := s[..|s| - 1];
      assert s == init + [s[|s| - 1]];
      RunsSnoc(init, s[|s| - 1]);
      RunsMaximal(init);
      ExtendMaximal(Runs(init), s[|s| - 1]);
    }
  }

  /** Appending one character keeps the runs maximal. */
  lemma ExtendMaximal(prev: seq<Run>, c: char)
    requires Maximal(prev)
    ensures Maximal(Extend(prev, c))
  {
    var r := Extend(prev, c);
    forall j, k | 0 <= j && k == j + 1 && k < |r| ensures r[j].ch != r[k].ch {
      if k < |r| - 1 {
        assert r[j] == prev[j] && r[k] == prev[k];
      }
    }
  }

  lemma SeqAssoc<T>(a: seq<T>, b: seq<T>, c: seq<T>)
    ensures (a + b) + c == a + (b + c)
  {
  }

  /** The runs of `s` spell out `s`. */
  lemma {:induction false} RunsSpellOut(s: string)
    ensures Expand(Runs(s)) == s
    decreases |s|
  {
    if s != [] {
      var init := s[..|s| - 1];
      var c := s[|s| - 1];
      assert s == init + [c];
      RunsSnoc(init, c);
      RunsSpellOut(init);
      var prev := Runs(init);
      if prev != [] && prev[|prev| - 1].ch == c {
        var front, last := prev[..|prev| - 1], prev[|prev| - 1];
        assert prev == front + [last];
        ExpandSnoc(front, last);
        ExpandSnoc(front, Run(c, last.count + 1));
        RepeatSnoc(c, last.count);
        SeqAssoc(Expand(front), Repeat(c, last.count), [c]);
      } else {
        ExpandSnoc(prev, Run(c, 1));
        RepeatSnoc(c, 0);
      }
    }
  }

  /** Every run's character occurs in `s`. */
  lemma {:induction false} RunsCharacters(s: string)
    ensures forall k :: 0 <= k < |Runs(s)| ==> Runs(s)[k].ch in s
    decreases |s|
  {
    if s != [] {
      var init := s[..|s| - 1];
      assert s == init + [s[|s| - 1]];
      RunsSnoc(init, s[|s| - 1]);
      RunsCharacters(init);
      var prev, r := Runs(init), Runs(s);
      forall k | 0 <= k < |r| ensures r[k].ch in s {
        if k < |r| - 1 {
          assert r[k] == prev[k];
          assert prev[k].ch in init;
        }
      }
    }
  }

  /** The runs `front + [last]` with one character taken off the end of
      `last`. */
  function Shorten(front: seq<Run>, last: Run): seq<Run> {
    if last.count <= 1 then front else front + [Run(last.ch, last.count - 1)]
  }

  lemma ExpandShorten(front: seq<Run>, last: Run)
    requires last.count >= 1
    ensures Expand(front + [last]) == Expand(Shorten(front, last)) + [last.ch]
  {
    var e, rep := Expand(front), Repeat(last.ch, last.count - 1);
    ExpandSnoc(front, last);
    RepeatSnoc(last.ch, last.count - 1);
    SeqAssoc(e, rep, [last.ch]);
    if last.count > 1 {
      ExpandSnoc(front, Run(last.ch, last.count - 1));
    } else {
      assert rep == [] && e + rep == e;
    }
  }

  lemma MaximalShorten(front: seq<Run>, last: Run)
    requires Maximal(front + [last])
    ensures Maximal(Shorten(front, last))
  {
    var runs, d := front + [last], Shorten(front, last);
    assert runs[|front|] == last;
    forall k | 0 <= k < |d| ensures d[k].count >= 1 {
      if k < |front| {
        assert d[k] == runs[k];
      }
    }
    forall j, k | 0 <= j && k == j + 1 && k < |d| ensures d[j].ch != d[k].ch {
      assert d[j].ch == runs[j].ch && d[k].ch == runs[k].ch;
    }
  }

  /** Putting back the character `Shorten` took off gives the same runs. */
  lemma ExtendShorten(front: seq<Run>, last: Run)
    requires Maximal(front + [last])
    ensures Extend(Shorten(front, last), last.ch) == front + [last]
  {
    var runs := front + [last];
    assert runs[|front|] == last;
    if last.count == 1 {
      assert front != [] ==> front[|front| - 1].ch != last.ch by {
        if front != [] {
          assert runs[|front| - 1] == front[|front| - 1] && runs[|front|] == last;
        }
      }
    } else {
      var shorter := front + [Run(last.ch, last.count - 1)];
      assert shorter[..|shorter| - 1] == front;
    }
  }

  /** `Runs` is the only maximal run list of `s`: a string has one way of
      being cut into maximal runs. */
  lemma {:induction false} RunsUnique(s: string, runs: seq<Run>)
    requires Maximal(runs) && Expand(runs) == s
    ensures runs == Runs(s)
    decreases |s|
  {
    if runs != [] {
      var front, last := runs[..|runs| - 1], runs[|runs| - 1];
      assert runs == front + [last];
      ExpandShorten(front, last);
      MaximalShorten(front, last);
      var init := Expand(Shorten(front, last));
      RunsUnique(init, Shorten(front, last));
      RunsSnoc(init, last.ch);
      ExtendShorten(front, last);
    }
  }

  /** `rle_encode`: walk the string keeping the current run's character
      `last` and length `count`; on a change of character flush the run into
      `result`, and flush the final run after the loop. An empty string has
      no first character to start from. */
  method Encode(s: string) returns (r: Result<string>)
    ensures s == [] ==> r == Err(EmptyInput)
    ensures s != [] ==> r == Ok(Render(Runs(s)))
  {
    if |s| == 0 {
      return Err(EmptyInput);
    }
    var count, last, result := 1, s[0], "";
    ghost var flushed: seq<Run> := [];
    assert s[..1] == [s[0]];
    RepeatSnoc(s[0], 0);
    assert Expand([Run(s[0], 1)]) == [s[0]];
    RunsUnique(s[..1], [Run(s[0], 1)]);
    for i := 1 to |s|
      invariant count >= 1
      invariant Runs(s[..i]) == flushed + [Run(last, count)]
      invariant result == Render(flushed)
    {
      var c := s[i];
      assert s[..i + 1][..i] == s[..i];
      if c == last {
        count := count + 1;
      } else {
        assert (flushed + [Run(last, count)])[..|flushed|] == flushed;
        result := result + [last] + Decimal(count);
        flushed := flushed + [Run(last, count)];
        count := 1;
      }
      last := c;
    }
    assert s[..|s|] == s;
    assert (flushed + [Run(last, count)])[..|flushed|] == flushed;
    result := result + [last] + Decimal(count);
    r := Ok(result);
  }

  /** The number of digits at the front of `s`. */
  function LeadingDigits(s: string): (k: nat)
    ensures k <= |s| && AllDigits(s[..k])
    ensures k < |s| ==> !IsDigit(s[k])
  {
    if s == [] || !IsDigit(s[0]) then 0
    else
      var k := 1 + LeadingDigits(s[1..]);
      assert s[..k] == [s[0]] + s[1..][..k - 1];
      k
  }

  /** A digit block that is followed by a non-digit or by the end of `s` is
      exactly the leading digits of `s`. */
  lemma {:induction false} LeadingDigitsExact(s: string, m: nat)
    requires m <= |s| && AllDigits(s[..m])
    requires m < |s| ==> !IsDigit(s[m])
    ensures LeadingDigits(s) == m
  {
    if m > 0 {
      assert s[0] == s[..m][0];
      assert s[1..][..m - 1] == s[..m][1..];
      LeadingDigitsExact(s[1..], m - 1);
    }
  }

  /** What `rle_decode` computes: the input is a sequence of segments, each
      one character followed by its maximal run of digits; a segment adds
      the character repeated the digits' value times. A character with no
      digits after it is an error. The empty input decodes to the empty
      string, so the only error is a missing count, and a first character
      not directly followed by a digit is one. */
  function Decoded(s: string): (r: Result<string>)
    ensures r.Err? ==> r.error == MissingCount
    ensures s != [] && (|s| == 1 || !IsDigit(s[1])) ==> r == Err(MissingCount)
    decreases |s|
  {
    if s == [] then Ok([])
    else
      var k := LeadingDigits(s[1..]);
      if k == 0 then Err(MissingCount)
      else
        match Decoded(s[1 + k..])
        case Err(e) => Err(e)
        case Ok(t) =>
          assert s[1..1 + k] == s[1..][..k];
          Ok(Repeat(s[0], DigitsValue(s[1..1 + k])) + t)
  }

  /** `prefix` put in front of a decoding result; errors pass through. */
  function Prefixed(prefix: string, r: Result<string>): Result<string> {
    match r
    case Err(e) => Err(e)
    case Ok(t) => Ok(prefix + t)
  }

  /** `rle_decode`: an outer loop reads one character per segment, an inner
      loop (`TakeDigits`) collects the digits after it, and the character
      repeated `int(count)` times is appended to `result`. */
  method Decode(s: string) returns (r: Result<string>)
    ensures r == Decoded(s)
  {
    var result, i := "", 0;
    assert s[0..] == s;
    PrefixedEmpty(Decoded(s));
    while i < |s|
      invariant 0 <= i <= |s|
      invariant Decoded(s) == Prefixed(result, Decoded(s[i..]))
      decreases |s| - i
    {
      var c := s[i];
      var count, next := TakeDigits(s, i + 1);
      DecodeSegment(s, i, next, result);
      i := next;
      if count == [] {
        return Err(MissingCount);
      }
      result := result + Repeat(c, DigitsValue(count));
    }
    assert s[|s|..] == [] && result + [] == result;
    r := Ok(result);
  }

  /** The inner loop of `rle_decode`: starting at `from`, collect the digits
      of `s` into `count` until a non-digit or the end of `s`. */
  method TakeDigits(s: string, from: nat) returns (count: string, i: nat)
    requires from <= |s|
    ensures from <= i <= |s| && count == s[from..i] && AllDigits(count)
    ensures i < |s| ==> !IsDigit(s[i])
  {
    count, i := "", from;
    while i < |s| && IsDigit(s[i])
      invariant from <= i <= |s|
      invariant count == s[from..i] && AllDigits(count)
      decreases |s| - i
    {
      count := count + [s[i]];
      i := i + 1;
    }
  }

  lemma PrefixedEmpty(r: Result<string>)
    ensures Prefixed([], r) == r
  {
    if r.Ok? {
      assert [] + r.value == r.value;
    }
  }

  /** The segment of `s` that starts at `i0` has its digits in
      `s[i0 + 1..i]`; decoding it either fails or adds its text to
      `result`. */
  lemma DecodeSegment(s: string, i0: nat, i: nat, result: string)
    requires i0 < i <= |s| && AllDigits(s[i0 + 1..i])
    requires i < |s| ==> !IsDigit(s[i])
    ensures i == i0 + 1 ==> Decoded(s[i0..]) == Err(MissingCount)
    ensures i > i0 + 1 ==>
      Prefixed(result, Decoded(s[i0..])) == Prefixed(result + Repeat(s[i0], DigitsValue(s[i0 + 1..i])), Decoded(s[i..]))
  {
    var t, m := s[i0..], i - i0 - 1;
    assert t[0] == s[i0] && t[1..1 + m] == s[i0 + 1..i] && t[1 + m..] == s[i..];
    assert 1 + m < |t| ==> t[1 + m] == s[i];
    DecodeFront(t, m);
    if m > 0 {
      PrefixedConcat(result, Repeat(s[i0], DigitsValue(s[i0 + 1..i])), Decoded(s[i..]));
    }
  }

  /** Decoding a string whose first segment has the `m` digits
      `t[1..1 + m]`. */
  lemma DecodeFront(t: string, m: nat)
    requires 1 + m <= |t| && AllDigits(t[1..1 + m])
    requires 1 + m < |t| ==> !IsDigit(t[1 + m])
    ensures m == 0 ==> Decoded(t) == Err(MissingCount)
    ensures m > 0 ==> Decoded(t) == Prefixed(Repeat(t[0], DigitsValue(t[1..1 + m])), Decoded(t[1 + m..]))
  {
    assert t[1..][..m] == t[1..1 + m];
    LeadingDigitsExact(t[1..], m);
    if m > 0 {
      var rep := Repeat(t[0], DigitsValue(t[1..1 + m]));
      match Decoded(t[1 + m..])
      case Err(e) =>
      case Ok(u) => assert Decoded(t) == Ok(rep + u);
    }
  }

  lemma PrefixedConcat(a: string, b: string, r: Result<string>)
    ensures Prefixed(a, Prefixed(b, r)) == Prefixed(a + b, r)
  {
    if r.Ok? {
      SeqAssoc(a, b, r.value);
    }
  }

  lemma {:induction false} RenderAppend(a: seq<Run>, b: seq<Run>)
    ensures Render(a + b) == Render(a) + Render(b)
    decreases |b|
  {
    if b != [] {
      var front, x := b[..|b| - 1], b[|b| - 1];
      assert b == front + [x] && a + b == (a + front) + [x];
      RenderAppend(a, front);
      RenderSnoc(a + front, x);
      RenderSnoc(front, x);
      SeqAssoc(Render(a), Render(front), [x.ch] + Decimal(x.count));
    } else {
      assert a + b == a;
    }
  }

  lemma {:induction false} ExpandAppend(a: seq<Run>, b: seq<Run>)
    ensures Expand(a + b) == Expand(a) + Expand(b)
    decreases |b|
  {
    if b != [] {
      var front, x := b[..|b| - 1], b[|b| - 1];
      assert b == front + [x] && a + b == (a + front) + [x];
      ExpandAppend(a, front);
      ExpandSnoc(a + front, x);
      ExpandSnoc(front, x);
      SeqAssoc(Expand(a), Expand(front), Repeat(x.ch, x.count));
    } else {
      assert a + b == a;
    }
  }

  /** Decoding the encoding of runs whose characters are not digits gives
      back their text, whatever the counts. */
  lemma {:induction false} DecodeRender(runs: seq<Run>)
    requires forall k :: 0 <= k < |runs| ==> !IsDigit(runs[k].ch)
    ensures Decoded(Render(runs)) == Ok(Expand(runs))
    decreases |runs|
  {
    if runs != [] {
      var x, tail := runs[0], runs[1..];
      assert runs == [x] + tail;
      var digits, rest := Decimal(x.count), Render(tail);
      RenderCons(x, tail);
      var t := Render(runs);
      SplitSegment(x.ch, digits, rest);
      if tail != [] {
        RenderFirst(tail);
      }
      DecodeFront(t, |digits|);
      DecimalValue(x.count);
      DecodeRender(tail);
      ExpandCons(x, tail);
    }
  }

  lemma RenderCons(x: Run, tail: seq<Run>)
    ensures Render([x] + tail) == [x.ch] + Decimal(x.count) + Render(tail)
  {
    RenderAppend([x], tail);
    RenderSnoc([], x);
    assert [] + [x] == [x];
  }

  lemma ExpandCons(x: Run, tail: seq<Run>)
    ensures Expand([x] + tail) == Repeat(x.ch, x.count) + Expand(tail)
  {
    ExpandAppend([x], tail);
    ExpandSnoc([], x);
    assert [] + [x] == [x];
  }

  /** The encoding of non-empty runs starts with the first run's
      character. */
  lemma RenderFirst(runs: seq<Run>)
    requires runs != []
    ensures Render(runs) != [] && Render(runs)[0] == runs[0].ch
  {
    assert runs == [runs[0]] + runs[1..];
    RenderCons(runs[0], runs[1..]);
  }

  /** Where the parts of one segment lie in its text. */
  lemma SplitSegment(c: char, digits: string, rest: string)
    ensures var t := [c] + digits + rest;
      && t[0] == c && t[1..1 + |digits|] == digits && t[1 + |digits|..] == rest
      && (rest != [] ==> t[1 + |digits|] == rest[0])
  {
  }

  /** For every string without digit characters, decoding the encoding of
      its runs gives the string back. */
  lemma EncodeDecodeRoundTrip(s: string)
    requires NoDigits(s)
    ensures Decoded(Render(Runs(s))) == Ok(s)
  {
    var runs := Runs(s);
    RunsCharacters(s);
    RunsSpellOut(s);
    forall k | 0 <= k < |runs| ensures !IsDigit(runs[k].ch) {
      var j :| 0 <= j < |s| && s[j] == runs[k].ch;
    }
    DecodeRender(runs);
  }

  /** `"aaabbc"` encodes to `"a3b2c1"`. */
  lemma EncodeExample()
    ensures Render(Runs("aaabbc")) == "a3b2c1"
  {
    ExampleRuns();
    ExampleRender();
  }

  lemma ExampleRuns()
    ensures Runs("aaabbc") == [Run('a', 3), Run('b', 2), Run('c', 1)]
  {
    ExampleExpand();
    RunsUnique("aaabbc", [Run('a', 3), Run('b', 2), Run('c', 1)]);
  }

  lemma ExampleExpand()
    ensures Expand([Run('a', 3), Run('b', 2), Run('c', 1)]) == "aaabbc"
    ensures Maximal([Run('a', 3), Run('b', 2), Run('c', 1)])
  {
    var a, b, c := Run('a', 3), Run('b', 2), Run('c', 1);
    ExampleExpandTwo();
    ExpandSnoc([a, b], c);
    assert [a, b] + [c] == [a, b, c];
    assert Repeat('c', 1) == "c";
  }

  lemma ExampleExpandTwo()
    ensures Expand([Run('a', 3), Run('b', 2)]) == "aaabb"
  {
    var a, b := Run('a', 3), Run('b', 2);
    ExpandSnoc([], a);
    assert [] + [a] == [a];
    assert Repeat('a', 3) == "aaa";
    ExpandSnoc([a], b);
    assert [a] + [b] == [a, b];
    assert Repeat('b', 2) == "bb";
  }

  lemma ExampleRender()
    ensures Render([Run('a', 3), Run('b', 2), Run('c', 1)]) == "a3b2c1"
  {
    var a, b, c := Run('a', 3), Run('b', 2), Run('c', 1);
    ExampleRenderTwo();
    RenderSnoc([a, b], c);
    assert [a, b] + [c] == [a, b, c];
    assert Decimal(1) == "1";
  }

  lemma ExampleRenderTwo()
    ensures Render([Run('a', 3), Run('b', 2)]) == "a3b2"
  {
    var a, b := Run('a', 3), Run('b', 2);
    RenderSnoc([], a);
    assert [] + [a] == [a];
    assert Decimal(3) == "3";
    RenderSnoc([a], b);
    assert [a] + [b] == [a, b];
    assert Decimal(2) == "2";
  }

  /** `"a3b2c1"` decodes to `"aaabbc"`. */
  lemma DecodeExample()
    ensures Decoded("a3b2c1") == Ok("aaabbc")
  {
    EncodeExample();
    EncodeDecodeRoundTrip("aaabbc");
  }

  /** A zero count contributes nothing, and a character without a count is
      an error. */
  lemma DecodeZeroAndMissing()
    ensures Decoded("a0b2") == Ok("bb")
    ensures Decoded("ab") == Err(MissingCount)
  {
    var b2: string := "b2";
    assert b2[1..] == "2" && b2[2..] == [] && b2[1..2] == "2";
    assert LeadingDigits(b2[1..]) == 1;
    assert DigitsValue(b2[1..2]) == 2;
    assert Decoded(b2) == Ok(Repeat('b', 2) + []);
    assert Repeat('b', 2) + [] == "bb";
    var a0b2: string := "a0b2";
    assert a0b2[1..] == "0b2" && a0b2[2..] == b2 && a0b2[1..2] == "0";
    assert LeadingDigits(a0b2[1..]) == 1;
    assert DigitsValue(a0b2[1..2]) == 0;
    assert Decoded(a0b2) == Ok(Repeat('a', 0) + "bb");
    assert Repeat('a', 0) + "bb" == "bb";
    var ab: string := "ab";
    assert ab[1..] == "b" && LeadingDigits(ab[1..]) == 0;
  }
}
