/** The string operations the checker relies on, written after Python's `str`:
    `split` on a one-character separator, `join`, `lower`, the `in` substring
    test, and `str` of a non-negative integer. */
module Text {

  /** `t` is a suffix of `s`. */
  predicate IsSuffix(t: string, s: string) {
    |t| <= |s| && s[|s| - |t|..] == t
  }

  /** `s.split(c)`: the pieces of `s` between occurrences of `c`. Python
      always returns at least one piece, and exactly one when `c` is absent. */
  function Split(s: string, c: char): (r: seq<string>)
    ensures |r| >= 1
    ensures forall i :: 0 <= i < |r| ==> c !in r[i]
    decreases |s|
  {
    if |s| == 0 then [""]
    else if s[0] == c then [""] + Split(s[1..], c)
    else
      var t := Split(s[1..], c);
      [[s[0]] + t[0]] + t[1..]
  }

  /** `sep.join(parts)`. */
  function Join(parts: seq<string>, sep: string): (r: string)
    ensures |parts| == 1 ==> r == parts[0]
    ensures |parts| > 1 ==> parts[0] + sep <= r
    decreases |parts|
  {
    if |parts| == 0 then ""
    else if |parts| == 1 then parts[0]
    else parts[0] + sep + Join(parts[1..], sep)
  }

  lemma {:induction false} SplitOfFree(x: string, c: char)
    requires c !in x
    ensures Split(x, c) == [x]
    decreases |x|
  {
    if |x| > 0 {
      SplitOfFree(x[1..], c);
      assert [x[0]] + x[1..] == x;
    }
  }

  /** The first piece is the prefix up to the first separator, and a lone
      piece is the whole string. */
  lemma {:induction false} SplitHead(s: string, c: char)
    ensures Split(s, c)[0] <= s
    ensures |Split(s, c)| == 1 ==> Split(s, c)[0] == s
    ensures c !in s ==> Split(s, c) == [s]
    ensures c in s ==> |Split(s, c)[0]| < |s| && s[|Split(s, c)[0]|] == c
    decreases |s|
  {
    if c !in s {
      SplitOfFree(s, c);
    }
    if |s| > 0 && s[0] != c {
      SplitHead(s[1..], c);
      var t := Split(s[1..], c);
      assert [s[0]] + s[1..] == s;
      if c in s {
        assert c in s[1..];
      }
    }
  }

  /** The last of the pieces `r` is a suffix of `s`, and when `s` holds a
      `c` it is preceded by one. */
  predicate LastPieceFollows(r: seq<string>, s: string, c: char) {
    && |r| >= 1
    && IsSuffix(r[|r| - 1], s)
    && (c in s ==> |r[|r| - 1]| < |s| && s[|s| - |r[|r| - 1]| - 1] == c)
  }

  /** The step of `SplitLast`: from the pieces `t` of the tail of `s` to the
      pieces `r` of `s`, the last piece stays a suffix that follows the last
      separator. */
  lemma LastPieceStep(s: string, c: char, t: seq<string>, r: seq<string>)
    requires |s| > 0
    requires LastPieceFollows(t, s[1..], c)
    requires |t| == 1 <==> c !in s[1..]
    requires |t| == 1 ==> t[0] == s[1..]
    requires r == if s[0] == c then [""] + t else [[s[0]] + t[0]] + t[1..]
    ensures LastPieceFollows(r, s, c)
  {
    var tail := s[1..];
    var last := t[|t| - 1];
    assert s[|s| - |last|..] == tail[|tail| - |last|..];
    if s[0] == c || |t| > 1 {
      assert r[|r| - 1] == last;
      if c in tail {
        assert s[|s| - |last| - 1] == tail[|tail| - |last| - 1];
      }
    } else {
      assert r == [[s[0]] + tail];
      assert [s[0]] + tail == s;
    }
  }

  /** The last piece is the suffix after the last separator. */
  lemma {:induction false} SplitLast(s: string, c: char)
    ensures LastPieceFollows(Split(s, c), s, c)
    decreases |s|
  {
    if |s| == 0 {
      assert Split(s, c) == [""];
    } else {
      var tail := s[1..];
      SplitLast(tail, c);
      SplitHead(tail, c);
      LastPieceStep(s, c, Split(tail, c), Split(s, c));
    }
  }

  /** `s.split(c)[0]`: everything before the first `c`. */
  function BeforeFirst(s: string, c: char): (r: string)
    ensures r <= s && c !in r
    ensures c !in s ==> r == s
    ensures c in s ==> |r| < |s| && s[|r|] == c
  {
    SplitHead(s, c);
    Split(s, c)[0]
  }

  /** `s.split(c)[-1]`: everything after the last `c`. */
  function AfterLast(s: string, c: char): (r: string)
    ensures IsSuffix(r, s) && c !in r
    ensures c !in s ==> r == s
    ensures c in s ==> |r| < |s| && s[|s| - |r| - 1] == c
  {
    SplitLast(s, c);
    SplitHead(s, c);
    var pieces := Split(s, c);
    pieces[|pieces| - 1]
  }

  /** Splitting at a separator that follows a separator-free prefix peels
      that prefix off as the first piece. */
  lemma {:induction false} SplitAfterPiece(x: string, c: char, y: string)
    requires c !in x
    ensures Split(x + [c] + y, c) == [x] + Split(y, c)
    decreases |x|
  {
    if |x| == 0 {
      assert x + [c] + y == [c] + y;
      assert ([c] + y)[1..] == y;
    } else {
      SplitAfterPiece(x[1..], c, y);
      assert (x + [c] + y)[1..] == x[1..] + [c] + y;
      assert [x[0]] + x[1..] == x;
    }
  }

  /** Cutting at the first `c` keeps a `c`-free prefix that is followed by
      nothing or by a `c`. */
  lemma BeforeFirstOfPrefix(x: string, rest: string, c: char)
    requires c !in x
    requires rest == [] || rest[0] == c
    ensures BeforeFirst(x + rest, c) == x
  {
    if rest == [] {
      assert x + rest == x;
    } else {
      assert x + rest == x + [c] + rest[1..];
      SplitAfterPiece(x, c, rest[1..]);
    }
  }

  /** The last piece ignores whatever precedes a string that holds `c`. */
  lemma {:induction false} SplitLastOfAppend(x: string, y: string, c: char)
    requires c in y
    ensures var p := Split(x + y, c);
            var q := Split(y, c);
            p[|p| - 1] == q[|q| - 1]
    decreases |x|
  {
    if |x| > 0 {
      SplitLastOfAppend(x[1..], y, c);
      assert (x + y)[1..] == x[1..] + y;
      assert (x + y)[0] == x[0];
      var t := Split(x[1..] + y, c);
      SplitHead(x[1..] + y, c);
      assert c in x[1..] + y;
      if x[0] != c {
        assert |t| > 1;
      }
    } else {
      assert x + y == y;
    }
  }

  /** `AfterLast` looks only at the part after the last `c`. */
  lemma AfterLastOfAppend(x: string, y: string, c: char)
    requires c in y
    ensures AfterLast(x + y, c) == AfterLast(y, c)
  {
    SplitLastOfAppend(x, y, c);
  }

  /** Splitting at `c` undoes joining with `c`, provided no piece holds `c`. */
  lemma {:induction false} SplitJoin(parts: seq<string>, c: char)
    requires |parts| >= 1
    requires forall i :: 0 <= i < |parts| ==> c !in parts[i]
    ensures Split(Join(parts, [c]), c) == parts
    decreases |parts|
  {
    if |parts| == 1 {
      SplitOfFree(parts[0], c);
    } else {
      SplitJoin(parts[1..], c);
      SplitAfterPiece(parts[0], c, Join(parts[1..], [c]));
      assert [parts[0]] + parts[1..] == parts;
    }
  }

  /** Joining the pieces with `c` rebuilds the original string. */
  lemma {:induction false} JoinSplit(s: string, c: char)
    ensures Join(Split(s, c), [c]) == s
    decreases |s|
  {
    if |s| == 0 {
    } else if s[0] == c {
      JoinSplit(s[1..], c);
      var t := Split(s[1..], c);
      assert Split(s, c) == [""] + t;
      assert ([""] + t)[1..] == t;
      assert [s[0]] + s[1..] == s;
    } else {
      JoinSplit(s[1..], c);
      var t := Split(s[1..], c);
      var head := [s[0]] + t[0];
      assert Split(s, c) == [head] + t[1..];
      if |t| == 1 {
        assert [s[0]] + s[1..] == s;
      } else {
        assert ([head] + t[1..])[1..] == t[1..];
        assert Join(t, [c]) == t[0] + [c] + Join(t[1..], [c]);
        assert [s[0]] + s[1..] == s;
      }
    }
  }

  /** A character absent from every part and from the separator is absent
      from the joined string. */
  lemma {:induction false} JoinFree(parts: seq<string>, sep: string, c: char)
    requires c !in sep
    requires forall i :: 0 <= i < |parts| ==> c !in parts[i]
    ensures c !in Join(parts, sep)
    decreases |parts|
  {
    if |parts| > 1 {
      JoinFree(parts[1..], sep, c);
    }
  }

  /** The texts, each followed by a newline. */
  function Lines(texts: seq<string>): string
    decreases |texts|
  {
    if |texts| == 0 then "" else texts[0] + "\n" + Lines(texts[1..])
  }

  /** Newline-terminated texts that hold no newline split back into the
      texts, followed by the empty piece after the final newline. */
  lemma {:induction false} SplitLines(texts: seq<string>)
    requires forall i :: 0 <= i < |texts| ==> '\n' !in texts[i]
    ensures Split(Lines(texts), '\n') == texts + [""]
    decreases |texts|
  {
    if |texts| > 0 {
      SplitLines(texts[1..]);
      SplitAfterPiece(texts[0], '\n', Lines(texts[1..]));
      assert texts[0] + "\n" + Lines(texts[1..]) == texts[0] + ['\n'] + Lines(texts[1..]);
      assert texts == [texts[0]] + texts[1..];
    }
  }

  /** Python's `str.lower` on the ASCII letters; other characters are kept. */
  function LowerChar(ch: char): (r: char)
    ensures 'A' <= ch <= 'Z' ==> 'a' <= r <= 'z' && r as int - ch as int == 32
    ensures !('A' <= ch <= 'Z') ==> r == ch
  {
    if 'A' <= ch <= 'Z' then (ch as int + 32) as char else ch
  }

  function Lower(s: string): (r: string)
    ensures |r| == |s|
    ensures forall i :: 0 <= i < |s| ==> r[i] == LowerChar(s[i])
  {
    seq(|s|, i requires 0 <= i < |s| => LowerChar(s[i]))
  }

  /** Lowering twice is lowering once, and leaves no upper-case ASCII letter. */
  lemma LowerIdempotent(s: string)
    ensures Lower(Lower(s)) == Lower(s)
    ensures forall i :: 0 <= i < |s| ==> !('A' <= Lower(s)[i] <= 'Z')
  {
  }

  /** `sub` occurs in `s` starting at index `i`. */
  predicate OccursAt(s: string, sub: string, i: int) {
    0 <= i && i + |sub| <= |s| && s[i..i + |sub|] == sub
  }

  /** Python's `sub in s`, computed by scanning left to right. */
  function Contains(s: string, sub: string): (r: bool)
    ensures r <==> exists i :: OccursAt(s, sub, i)
    decreases |s|
  {
    if |s| < |sub| then
      assert forall i :: !OccursAt(s, sub, i);
      false
    else if s[..|sub|] == sub then
      assert OccursAt(s, sub, 0);
      true
    else
      var rest := Contains(s[1..], sub);
      assert forall i :: OccursAt(s[1..], sub, i) <==> OccursAt(s, sub, i + 1);
      assert forall i :: OccursAt(s, sub, i) ==> i >= 1;
      assert forall i :: OccursAt(s, sub, i) ==> OccursAt(s[1..], sub, i - 1);
      rest
  }

  /** The decimal digit character for `d`. */
  function DigitChar(d: nat): (ch: char)
    requires d < 10
    ensures '0' <= ch <= '9'
    ensures ch as int - '0' as int == d
  {
    ('0' as int + d) as char
  }

  predicate IsDigits(s: string) {
    forall i :: 0 <= i < |s| ==> '0' <= s[i] <= '9'
  }

  /** `str(n)`: the decimal rendering of `n`, without sign or leading zeros. */
  function NatToString(n: nat): (r: string)
    ensures |r| >= 1 && IsDigits(r)
    ensures |r| > 1 ==> r[0] != '0'
    decreases n
  {
    if n < 10 then [DigitChar(n)]
    else NatToString(n / 10) + [DigitChar(n % 10)]
  }

  /** The value of a string of decimal digits (`int(s)` on such strings). */
  function ParseNat(s: string): nat
    requires IsDigits(s)
    decreases |s|
  {
    if |s| == 0 then 0
    else ParseNat(s[..|s| - 1]) * 10 + (s[|s| - 1] as int - '0' as int)
  }

  /** Reading back the decimal rendering yields the number. */
  lemma {:induction false} ParseNatToString(n: nat)
    ensures ParseNat(NatToString(n)) == n
    decreases n
  {
    if n >= 10 {
      ParseNatToString(n / 10);
      var s := NatToString(n);
      assert s[..|s| - 1] == NatToString(n / 10);
    }
  }

  /** Different numbers render differently. */
  lemma NatToStringInjective(m: nat, n: nat)
    ensures NatToString(m) == NatToString(n) ==> m == n
  {
    ParseNatToString(m);
    ParseNatToString(n);
  }
}
