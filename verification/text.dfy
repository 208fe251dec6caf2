/**
 The two JavaScript string operations the edge-list reader relies on:
 `String.prototype.split` with a one-character separator, and
 `String.prototype.trim`.
 */
module Text {

  /** The characters `trim` removes: ECMAScript WhiteSpace and LineTerminator. */
  predicate IsWhite(c: char)
  {
    || '\U{9}' <= c <= '\U{D}'
    || c == ' ' || c == '\U{A0}' || c == '\U{1680}'
    || '\U{2000}' <= c <= '\U{200A}'
    || c == '\U{2028}' || c == '\U{2029}' || c == '\U{202F}' || c == '\U{205F}'
    || c == '\U{3000}' || c == '\U{FEFF}'
  }

  /** Every character of `s` is white space. */
  predicate AllWhite(s: string)
  {
    forall i :: 0 <= i < |s| ==> IsWhite(s[i])
  }

  /** Glues `parts` back together with `sep` between neighbours. */
  function Join(parts: seq<string>, sep: char): string
    requires |parts| >= 1
  {
    if |parts| == 1 then parts[0] else parts[0] + [sep] + Join(parts[1..], sep)
  }

  /**
   `s.split(sep)`: the maximal separator-free pieces of `s`, in order. The empty
   string yields one empty piece, and adjacent separators yield empty pieces.
   */
  function Split(s: string, sep: char): (parts: seq<string>)
    ensures |parts| >= 1
    ensures forall i :: 0 <= i < |parts| ==> sep !in parts[i]
    ensures Join(parts, sep) == s
    ensures |parts| == 1 <==> sep !in s
  {
    if |s| == 0 then [""]
    else
      var rest := Split(s[1..], sep);
      if s[0] == sep then
        assert s == [sep] + s[1..];
        [""] + rest
      else
        var parts := [[s[0]] + rest[0]] + rest[1..];
        assert parts[1..] == rest[1..];
        assert s == [s[0]] + s[1..];
        if |rest| == 1 then
          parts
        else
          assert Join(rest, sep) == rest[0] + [sep] + Join(rest[1..], sep);
          parts
  }

  /** Splitting what `Join` glued gives the pieces back, when no piece holds the separator. */
  lemma {:induction false} SplitJoin(parts: seq<string>, sep: char)
    requires |parts| >= 1
    requires forall i :: 0 <= i < |parts| ==> sep !in parts[i]
    ensures Split(Join(parts, sep), sep) == parts
    decreases |parts|
  {
    if |parts| == 1 {
      assert sep !in Join(parts, sep);
      SplitSeparatorFree(parts[0], sep);
    } else {
      SplitJoin(parts[1..], sep);
      SplitAfterPiece(parts[0], Join(parts[1..], sep), sep);
      assert [parts[0]] + parts[1..] == parts;
    }
  }

  /** A separator-free string splits into itself alone. */
  lemma SplitSeparatorFree(s: string, sep: char)
    requires sep !in s
    ensures Split(s, sep) == [s]
  {
    var parts := Split(s, sep);
    assert |parts| == 1;
  }

  /** A separator-free piece followed by the separator splits off as the first piece. */
  lemma {:induction false} SplitAfterPiece(a: string, b: string, sep: char)
    requires sep !in a
    ensures Split(a + [sep] + b, sep) == [a] + Split(b, sep)
    decreases |a|
  {
    var s := a + [sep] + b;
    if |a| == 0 {
      assert s == [sep] + b;
      assert s[1..] == b;
    } else {
      assert s[0] == a[0];
      assert s[1..] == a[1..] + [sep] + b;
      SplitAfterPiece(a[1..], b, sep);
      assert a == [a[0]] + a[1..];
    }
  }

  /** `s.trimStart()`: drops leading white space, keeping the rest as a suffix of `s`. */
  function TrimStart(s: string): (r: string)
    ensures |r| <= |s| && r == s[|s| - |r|..] && AllWhite(s[..|s| - |r|])
    ensures |r| > 0 ==> !IsWhite(r[0])
  {
    if |s| > 0 && IsWhite(s[0]) then
      var r := TrimStart(s[1..]);
      assert s[|s| - |r|..] == s[1..][|s| - 1 - |r|..];
      assert AllWhite(s[..|s| - |r|]) by {
        forall k | 0 <= k < |s| - |r| ensures IsWhite(s[k]) {
          if k > 0 { assert s[k] == s[1..][..|s| - 1 - |r|][k - 1]; }
        }
      }
      r
    else
      s
  }

  /** `s.trimEnd()`: drops trailing white space, keeping the rest as a prefix of `s`. */
  function TrimEnd(s: string): (r: string)
    ensures |r| <= |s| && r == s[..|r|] && AllWhite(s[|r|..])
    ensures |r| > 0 ==> !IsWhite(r[|r| - 1])
  {
    if |s| > 0 && IsWhite(s[|s| - 1]) then
      var front := s[..|s| - 1];
      var r := TrimEnd(front);
      assert s[..|r|] == front[..|r|];
      assert AllWhite(s[|r|..]) by {
        forall k | |r| <= k < |s| ensures IsWhite(s[k]) {
          if k < |s| - 1 { assert s[k] == front[|r|..][k - |r|]; }
        }
      }
      r
    else
      s
  }

  /**
   `s.trim()`: the slice of `s` left once leading and trailing white space is
   removed; it neither starts nor ends with white space.
   */
  function Trim(s: string): (r: string)
    ensures exists i, j :: 0 <= i <= j <= |s| && r == s[i..j] && AllWhite(s[..i]) && AllWhite(s[j..])
    ensures |r| > 0 ==> !IsWhite(r[0]) && !IsWhite(r[|r| - 1])
  {
    var t := TrimStart(s);
    var r := TrimEnd(t);
    TrimSlice(s, t, r);
    r
  }

  /** The bookkeeping behind `Trim`: the two trims leave a slice with white space on both sides. */
  lemma TrimSlice(s: string, t: string, r: string)
    requires |t| <= |s| && t == s[|s| - |t|..] && AllWhite(s[..|s| - |t|]) && (|t| > 0 ==> !IsWhite(t[0]))
    requires |r| <= |t| && r == t[..|r|] && AllWhite(t[|r|..]) && (|r| > 0 ==> !IsWhite(r[|r| - 1]))
    ensures exists i, j :: 0 <= i <= j <= |s| && r == s[i..j] && AllWhite(s[..i]) && AllWhite(s[j..])
    ensures |r| > 0 ==> !IsWhite(r[0]) && !IsWhite(r[|r| - 1])
  {
    var i := |s| - |t|;
    var j := i + |r|;
    assert t == s[i..];
    assert r == t[..|r|];
    assert r == s[i..j];
    assert s[j..] == t[|r|..];
    assert AllWhite(s[..i]) && AllWhite(s[j..]);
    assert |r| > 0 ==> r[0] == t[0];
  }

  /** A non-white character inside the tail keeps `trimEnd` from reaching the head. */
  lemma {:induction false} TrimEndKeepsHead(a: string, b: string)
    requires !AllWhite(b)
    ensures TrimEnd(a + b) == a + TrimEnd(b)
    decreases |b|
  {
    var s := a + b;
    if IsWhite(b[|b| - 1]) {
      var front := b[..|b| - 1];
      assert s[..|s| - 1] == a + front;
      assert !AllWhite(front) by {
        var k :| 0 <= k < |b| && !IsWhite(b[k]);
        assert k < |b| - 1 && front[k] == b[k];
      }
      TrimEndKeepsHead(a, front);
    } else {
      assert s[|s| - 1] == b[|b| - 1];
    }
  }

  /** An all-white tail disappears under `trimEnd`. */
  lemma {:induction false} TrimEndDropsWhiteTail(a: string, b: string)
    requires AllWhite(b)
    ensures TrimEnd(a + b) == TrimEnd(a)
    decreases |b|
  {
    if |b| > 0 {
      var s := a + b;
      assert s[|s| - 1] == b[|b| - 1];
      assert s[..|s| - 1] == a + b[..|b| - 1];
      TrimEndDropsWhiteTail(a, b[..|b| - 1]);
    } else {
      assert a + b == a;
    }
  }

  /** Text with some non-white character keeps a non-empty suffix under `trimStart`. */
  lemma TrimStartOfContent(s: string)
    requires !AllWhite(s)
    ensures |TrimStart(s)| > 0
  {
    var r := TrimStart(s);
    var n := |s| - |r|;
    var k :| 0 <= k < |s| && !IsWhite(s[k]);
    assert AllWhite(s[..n]);
    forall i | 0 <= i < n ensures IsWhite(s[i]) {
      assert s[..n][i] == s[i];
    }
    assert k >= n;
  }

  /** A non-white character inside the head keeps `trimStart` from reaching the tail. */
  lemma {:induction false} TrimStartKeepsTail(a: string, b: string)
    requires !AllWhite(a)
    ensures TrimStart(a + b) == TrimStart(a) + b
    decreases |a|
  {
    var s := a + b;
    assert s[0] == a[0];
    if IsWhite(a[0]) {
      assert !AllWhite(a[1..]) by {
        var k :| 0 <= k < |a| && !IsWhite(a[k]);
        assert k > 0 && a[1..][k - 1] == a[k];
      }
      assert s[1..] == a[1..] + b;
      TrimStartKeepsTail(a[1..], b);
    }
  }
}
