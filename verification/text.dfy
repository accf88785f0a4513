/** String helpers: Python's `str()` on integers, `str.split`, `str.join`,
    and substring containment. Strings are `seq<char>`. */
module Text {
  import opened Wrappers

  predicate IsDigit(c: char) {
    '0' <= c <= '9'
  }

  predicate AllDigits(s: string) {
    forall i :: 0 <= i < |s| ==> IsDigit(s[i])
  }

  function DigitChar(d: nat): (c: char)
    requires d < 10
    ensures IsDigit(c)
  {
    ('0' as int + d) as char
  }

  function DigitValue(c: char): (d: nat)
    requires IsDigit(c)
    ensures d < 10
    ensures DigitChar(d) == c
  {
    c as int - '0' as int
  }

  /** Decimal rendering of a natural number, as Python's `str()` renders a
      non-negative `int`: at least one digit and no leading zero. */
  function NatToString(n: nat): (s: string)
    ensures |s| > 0
    ensures AllDigits(s)
    ensures |s| > 1 ==> s[0] != '0'
    decreases n
  {
    if n < 10 then [DigitChar(n)] else NatToString(n / 10) + [DigitChar(n % 10)]
  }

  /** Python's `str()` on an `int`, negative values included. */
  function IntToString(i: int): (s: string)
    ensures |s| > 0
    ensures i >= 0 <==> s[0] != '-'
  {
    if i < 0 then "-" + NatToString(-i) else NatToString(i)
  }

  /** Value of a string of decimal digits (the empty string reads as 0). */
  function ParseNat(s: string): nat
    requires AllDigits(s)
  {
    if |s| == 0 then 0 else ParseNat(s[..|s| - 1]) * 10 + DigitValue(s[|s| - 1])
  }

  /** Reading back a rendered number gives the number. */
  lemma {:induction false} ParseNatToString(n: nat)
    ensures ParseNat(NatToString(n)) == n
    decreases n
  {
    var s := NatToString(n);
    if n >= 10 {
      var p := NatToString(n / 10);
      assert s == p + [DigitChar(n % 10)];
      assert s[..|s| - 1] == p;
      ParseNatToString(n / 10);
    }
  }

  /** The longest prefix of `s` made of digits. */
  function TakeDigits(s: string): (d: string)
    ensures |d| <= |s| && d == s[..|d|]
    ensures AllDigits(d)
    ensures |d| == |s| || !IsDigit(s[|d|])
  {
    if |s| == 0 || !IsDigit(s[0]) then [] else [s[0]] + TakeDigits(s[1..])
  }

  /** A run of digits followed by a non-digit (or nothing) is exactly the
      digit prefix that `TakeDigits` finds. */
  lemma {:induction false} TakeDigitsOfRun(d: string, t: string)
    requires AllDigits(d)
    requires |t| == 0 || !IsDigit(t[0])
    ensures TakeDigits(d + t) == d
    decreases |d|
  {
    if |d| > 0 {
      assert (d + t)[1..] == d[1..] + t;
      TakeDigitsOfRun(d[1..], t);
      assert d == [d[0]] + d[1..];
    } else {
      assert d + t == t;
    }
  }

  /** Flattening of a sequence of sequences, in order. */
  function Concat<T>(parts: seq<seq<T>>): (r: seq<T>)
  {
    if |parts| == 0 then [] else Concat(parts[..|parts| - 1]) + parts[|parts| - 1]
  }

  lemma {:induction false} ConcatAppend<T>(a: seq<seq<T>>, b: seq<seq<T>>)
    ensures Concat(a + b) == Concat(a) + Concat(b)
    decreases |b|
  {
    if |b| == 0 {
      assert a + b == a;
    } else {
      assert (a + b)[..|a + b| - 1] == a + b[..|b| - 1];
      ConcatAppend(a, b[..|b| - 1]);
    }
  }

  /** Each part preceded by the separator. */
  function Prefixed(sep: string, parts: seq<string>): (r: seq<string>)
    ensures |r| == |parts|
    ensures forall i :: 0 <= i < |parts| ==> r[i] == sep + parts[i]
  {
    seq(|parts|, i requires 0 <= i < |parts| => sep + parts[i])
  }

  /** Python's `sep.join(parts)`. */
  function Join(sep: string, parts: seq<string>): string
  {
    if |parts| == 0 then ""
    else if |parts| == 1 then parts[0]
    else parts[0] + sep + Join(sep, parts[1..])
  }

  /** Extending the joined list by one part extends the joined text by the
      separator and that part: earlier text is never rewritten. */
  lemma {:induction false} JoinSnoc(sep: string, parts: seq<string>, x: string)
    requires |parts| > 0
    ensures Join(sep, parts + [x]) == Join(sep, parts) + sep + x
    decreases |parts|
  {
    if |parts| > 1 {
      assert (parts + [x])[1..] == parts[1..] + [x];
      JoinSnoc(sep, parts[1..], x);
    } else {
      assert parts + [x] == [parts[0], x];
      assert [parts[0], x][1..] == [x];
    }
  }

  /** The joined text is the first part followed by every later part, in
      order, each preceded by one separator. */
  lemma {:induction false} JoinContents(sep: string, parts: seq<string>)
    requires |parts| > 0
    ensures Join(sep, parts) == parts[0] + Concat(Prefixed(sep, parts[1..]))
    decreases |parts|
  {
    if |parts| == 1 {
      assert Prefixed(sep, parts[1..]) == [];
    } else {
      var init := parts[..|parts| - 1];
      var x := parts[|parts| - 1];
      assert parts == init + [x];
      JoinSnoc(sep, init, x);
      JoinContents(sep, init);
      assert init[0] == parts[0];
      assert parts[1..] == init[1..] + [x];
      var pre := Prefixed(sep, parts[1..]);
      assert pre[..|pre| - 1] == Prefixed(sep, init[1..]);
      assert pre[|pre| - 1] == sep + x;
    }
  }

  /** The joined text's length: every part plus one separator between each
      neighbouring pair. */
  lemma {:induction false} JoinLength(sep: string, parts: seq<string>)
    requires |parts| > 0
    ensures |Join(sep, parts)| == |Concat(parts)| + (|parts| - 1) * |sep|
    decreases |parts|
  {
    if |parts| > 1 {
      var init := parts[..|parts| - 1];
      assert parts == init + [parts[|parts| - 1]];
      JoinSnoc(sep, init, parts[|parts| - 1]);
      JoinLength(sep, init);
    }
  }

  /** Python's `s.split(c)` for a one-character separator. */
  function Split(s: string, c: char): (parts: seq<string>)
    ensures |parts| > 0
    ensures forall i :: 0 <= i < |parts| ==> c !in parts[i]
  {
    if |s| == 0 then [""]
    else
      var rest := Split(s[1..], c);
      if s[0] == c then [""] + rest else [[s[0]] + rest[0]] + rest[1..]
  }

  /** Joining the pieces with the separator gives the original string back. */
  lemma {:induction false} JoinSplit(s: string, c: char)
    ensures Join([c], Split(s, c)) == s
    decreases |s|
  {
    if |s| > 0 {
      var rest := Split(s[1..], c);
      JoinSplit(s[1..], c);
      if s[0] == c {
        assert Split(s, c) == [""] + rest;
        assert ([""] + rest)[1..] == rest;
      } else {
        var parts := [[s[0]] + rest[0]] + rest[1..];
        assert Split(s, c) == parts;
        if |rest| == 1 {
          assert parts == [[s[0]] + rest[0]];
        } else {
          assert parts[1..] == rest[1..];
        }
        assert s == [s[0]] + s[1..];
      }
    }
  }

  /** Python's `s.split(c)[-1]`: the text after the last `c`. */
  function LastSegment(s: string, c: char): string
  {
    var parts := Split(s, c);
    parts[|parts| - 1]
  }

  /** The last segment is a suffix of the string that contains no separator,
      and it is either the whole string or preceded by a separator. */
  lemma {:induction false} LastSegmentIsSuffix(s: string, c: char)
    ensures c !in LastSegment(s, c)
    ensures |LastSegment(s, c)| <= |s|
    ensures LastSegment(s, c) == s[|s| - |LastSegment(s, c)|..]
    ensures |LastSegment(s, c)| == |s| || s[|s| - |LastSegment(s, c)| - 1] == c
    decreases |s|
  {
    if |s| > 0 {
      var t := s[1..];
      var rest := Split(t, c);
      LastSegmentIsSuffix(t, c);
      if s[0] == c {
        LastOfConsEmpty(s, c);
      } else if |rest| == 1 {
        JoinSplit(t, c);
        assert Split(s, c) == [[s[0]] + rest[0]];
        assert LastSegment(s, c) == s;
      } else {
        var r := LastSegment(t, c);
        assert Split(s, c) == [[s[0]] + rest[0]] + rest[1..];
        assert LastSegment(s, c) == r;
        assert |r| < |t| by {
          if |r| == |t| {
            assert r == t;
            NoSeparatorSplit(t, c);
          }
        }
        assert s[|s| - |r| - 1] == t[|t| - |r| - 1];
        assert s[|s| - |r|..] == t[|t| - |r|..];
      }
    }
  }

  /** A leading separator does not change the last segment. */
  lemma LastOfConsEmpty(s: string, c: char)
    requires |s| > 0 && s[0] == c
    ensures LastSegment(s, c) == LastSegment(s[1..], c)
  {
    var rest := Split(s[1..], c);
    assert Split(s, c) == [""] + rest;
  }

  /** When the tail after a separator has no separator, it is the last segment. */
  lemma {:induction false} LastSegmentAfterSeparator(prefix: string, c: char, tail: string)
    requires c !in tail
    ensures LastSegment(prefix + [c] + tail, c) == tail
    decreases |prefix|
  {
    if |prefix| == 0 {
      assert [c] + tail == prefix + [c] + tail;
      assert ([c] + tail)[1..] == tail;
      NoSeparatorSplit(tail, c);
    } else {
      var s := prefix + [c] + tail;
      assert s[1..] == prefix[1..] + [c] + tail;
      LastSegmentAfterSeparator(prefix[1..], c, tail);
      var rest := Split(s[1..], c);
      assert |rest| > 1 by {
        SplitSingleHasNoSeparator(s[1..], c);
        assert s[1..][|prefix| - 1] == c;
      }
    }
  }

  /** A string without the separator splits into itself alone. */
  lemma {:induction false} NoSeparatorSplit(s: string, c: char)
    requires c !in s
    ensures Split(s, c) == [s]
    decreases |s|
  {
    if |s| > 0 {
      assert c !in s[1..] by {
        forall i | 0 <= i < |s[1..]| ensures s[1..][i] != c { assert s[1..][i] == s[i + 1]; }
      }
      NoSeparatorSplit(s[1..], c);
      assert s == [s[0]] + s[1..];
    }
  }

  /** Splitting at one separator splits the two sides independently. */
  lemma {:induction false} SplitAround(a: string, c: char, b: string)
    ensures Split(a + [c] + b, c) == Split(a, c) + Split(b, c)
    decreases |a|
  {
    if |a| == 0 {
      assert a + [c] + b == [c] + b;
      SplitCons(c, b, c);
    } else {
      var x, t := a[0], a[1..];
      assert a == [x] + t;
      assert a + [c] + b == [x] + (t + [c] + b);
      SplitAround(t, c, b);
      SplitAroundStep(x, t, c, b);
    }
  }

  /** The inductive step of `SplitAround`: one more leading character. */
  lemma SplitAroundStep(x: char, t: string, c: char, b: string)
    requires Split(t + [c] + b, c) == Split(t, c) + Split(b, c)
    ensures Split([x] + (t + [c] + b), c) == Split([x] + t, c) + Split(b, c)
  {
    SplitCons(x, t + [c] + b, c);
    SplitCons(x, t, c);
    SplitStepAppend(x, c, Split(t, c), Split(b, c));
  }

  /** How a leading character combines with the pieces of the rest. */
  function SplitStep(x: char, c: char, rest: seq<string>): seq<string>
    requires |rest| > 0
  {
    if x == c then [""] + rest else [[x] + rest[0]] + rest[1..]
  }

  lemma SplitStepAppend(x: char, c: char, left: seq<string>, right: seq<string>)
    requires |left| > 0
    ensures SplitStep(x, c, left + right) == SplitStep(x, c, left) + right
  {
    if x != c {
      assert (left + right)[1..] == left[1..] + right;
    }
  }

  /** One step of `Split`: a leading character either closes an empty piece
      or joins the first piece of the rest. */
  lemma SplitCons(x: char, t: string, c: char)
    ensures Split([x] + t, c) == SplitStep(x, c, Split(t, c))
  {
    assert ([x] + t)[1..] == t;
  }

  /** A single piece means the string had no separator. */
  lemma SplitSingleHasNoSeparator(s: string, c: char)
    ensures |Split(s, c)| == 1 ==> c !in s
  {
    if |Split(s, c)| == 1 {
      JoinSplit(s, c);
    }
  }

  /** `w` occurs in `s` as a contiguous block. */
  predicate Contains(s: string, w: string) {
    exists i :: 0 <= i <= |s| - |w| && w <= s[i..]
  }
  /** Text framed by `a` and `b` contains `w` exactly when the text does,
      provided `w` cannot start inside either frame and cannot run from the
      text into `b`. */
  lemma ContainsFramed(a: string, text: string, b: string, w: string)
    requires |w| > 0 && |b| > 0
    requires w[0] !in a && w[0] !in b && b[0] !in w
    ensures Contains(a + text + b, w) <==> Contains(text, w)
  {
    var p := a + text + b;
    if Contains(text, w) {
      var j :| 0 <= j <= |text| - |w| && w <= text[j..];
      assert p[|a| + j..] == text[j..] + b;
    }
    if Contains(p, w) {
      var i :| 0 <= i <= |p| - |w| && w <= p[i..];
      OccurrenceInsideFrame(a, text, b, w, i);
      var t := i - |a|;
      assert w == p[i..][..|w|] == text[t..][..|w|];
      assert w <= text[t..];
    }
  }

  /** An occurrence of `w` in the framed text lies wholly inside the text. */
  lemma OccurrenceInsideFrame(a: string, text: string, b: string, w: string, i: nat)
    requires |w| > 0 && |b| > 0
    requires w[0] !in a && w[0] !in b && b[0] !in w
    requires i + |w| <= |a + text + b| && w <= (a + text + b)[i..]
    ensures |a| <= i && i + |w| <= |a| + |text|
  {
    var p := a + text + b;
    var e := |a| + |text|;
    assert p[i] == w[0];
    // Three cases are excluded: the occurrence starts inside `a`, starts
    // inside `b`, or starts in the text and runs into `b`.
    if |a| > 0 {
      var ja := if i < |a| then i else 0;
      assert p[ja] == a[ja];
    }
    var jb := if i >= e then i - e else 0;
    assert p[e + jb] == b[jb];
    var k := if i <= e < i + |w| then e - i else 0;
    assert w[k] == p[i + k];
    assert p[e] == b[0];
  }

  /** Strips a known head and tail, giving the body between them. */
  function Unwrap(p: string, head: string, tail: string): Option<string> {
    if |head| + |tail| <= |p| && head <= p && p[|p| - |tail|..] == tail
    then Some(p[|head|..|p| - |tail|])
    else None
  }

  lemma UnwrapWrap(head: string, body: string, tail: string)
    ensures Unwrap(head + body + tail, head, tail) == Some(body)
  {
    var p := head + body + tail;
    assert p[|p| - |tail|..] == tail;
    assert p[|head|..|p| - |tail|] == body;
  }

  /** Whatever `Unwrap` reads out of a string is framed by the head and the
      tail: the string is exactly `head + body + tail`. */
  lemma UnwrapFrames(p: string, head: string, tail: string, body: string)
    requires Unwrap(p, head, tail) == Some(body)
    ensures p == head + body + tail
  {
    assert p == p[..|head|] + p[|head|..|p| - |tail|] + p[|p| - |tail|..];
  }
}
