/**
 * The JavaScript string built-ins the calendar code relies on: `slice`,
 * `split` on a one-character separator, `Array.prototype.join`, `trim`,
 * `toLowerCase`, `includes`, `startsWith` and `padStart`.
 */
module JsStrings {

  /** `s.slice(start, end)` for non-negative indices: both ends are clamped to the length. */
  function Slice(s: string, start: nat, end: nat): (r: string)
    ensures start + |r| <= |s| || r == []
    ensures forall i :: 0 <= i < |r| ==> r[i] == s[start + i]
    ensures start <= end <= |s| ==> |r| == end - start
    ensures end <= start || |s| <= start ==> r == []
    ensures start <= |s| < end ==> r == s[start..]
  {
    var e := if end <= |s| then end else |s|;
    if start <= e then s[start..e] else []
  }

  /** `parts.join(sep)`. */
  function Join(parts: seq<string>, sep: string): string
  {
    if |parts| == 0 then ""
    else if |parts| == 1 then parts[0]
    else parts[0] + sep + Join(parts[1..], sep)
  }

  /** `s.split(sep)` for a one-character separator: the pieces between separators. */
  function Split(s: string, sep: char): (parts: seq<string>)
    ensures |parts| >= 1
    decreases |s|
  {
    if s == [] then [""]
    else
      var rest := Split(s[1..], sep);
      if s[0] == sep then [""] + rest
      else [[s[0]] + rest[0]] + rest[1..]
  }

  /**
   * The pieces of a split are maximal: no piece holds the separator, and
   * joining the pieces back with the separator gives `s`.
   */
  lemma {:induction false} SplitPieces(s: string, sep: char)
    ensures var parts := Split(s, sep);
      && (forall i :: 0 <= i < |parts| ==> sep !in parts[i])
      && Join(parts, [sep]) == s
    decreases |s|
  {
    if s != [] {
      var rest := Split(s[1..], sep);
      SplitPieces(s[1..], sep);
      if s[0] == sep {
        assert [sep] + Join(rest, [sep]) == s;
      } else {
        JoinConsChar(s[0], rest, [sep]);
        assert [s[0]] + Join(rest, [sep]) == s;
      }
    }
  }

  lemma JoinConsChar(c: char, parts: seq<string>, sep: string)
    requires |parts| >= 1
    ensures Join([[c] + parts[0]] + parts[1..], sep) == [c] + Join(parts, sep)
  {
    var q := [[c] + parts[0]] + parts[1..];
    assert q[1..] == parts[1..];
  }

  /** A piece free of the separator, followed by the separator, starts the split. */
  lemma {:induction false} SplitAfterPiece(a: string, sep: char, b: string)
    requires sep !in a
    ensures Split(a + [sep] + b, sep) == [a] + Split(b, sep)
    decreases |a|
  {
    if a == [] {
      assert a + [sep] + b == [sep] + b;
      assert ([sep] + b)[1..] == b;
    } else {
      var s := a + [sep] + b;
      assert s[0] == a[0] && s[1..] == a[1..] + [sep] + b;
      SplitAfterPiece(a[1..], sep, b);
      assert [a[0]] + a[1..] == a;
    }
  }

  /** A string free of the separator splits into itself. */
  lemma {:induction false} SplitNoSeparator(a: string, sep: char)
    requires sep !in a
    ensures Split(a, sep) == [a]
    decreases |a|
  {
    if a != [] {
      SplitNoSeparator(a[1..], sep);
      assert [a[0]] + a[1..] == a;
    }
  }

  /** Two separator-free pieces joined by the separator split back into the two. */
  lemma SplitTwoPieces(s: string, a: string, sep: char, b: string)
    requires s == a + [sep] + b
    requires sep !in a && sep !in b
    ensures Split(s, sep) == [a, b]
  {
    SplitAfterPiece(a, sep, b);
    SplitNoSeparator(b, sep);
  }

  /** A string splits into more than one piece exactly when it holds the separator. */
  lemma SplitHasPieces(s: string, sep: char)
    ensures |Split(s, sep)| > 1 <==> sep in s
  {
    if sep !in s {
      SplitNoSeparator(s, sep);
    }
  }

  /** Splitting a join of separator-free pieces gives the pieces back. */
  lemma {:induction false} SplitJoin(parts: seq<string>, sep: char)
    requires |parts| >= 1
    requires forall i :: 0 <= i < |parts| ==> sep !in parts[i]
    ensures Split(Join(parts, [sep]), sep) == parts
    decreases |parts|
  {
    if |parts| == 1 {
      SplitNoSeparator(parts[0], sep);
    } else {
      SplitJoin(parts[1..], sep);
      SplitAfterPiece(parts[0], sep, Join(parts[1..], [sep]));
      assert parts[0] + [sep] + Join(parts[1..], [sep]) == Join(parts, [sep]);
      assert [parts[0]] + parts[1..] == parts;
    }
  }

  /** The characters `String.prototype.trim` removes: white space and line terminators. */
  predicate IsWhitespace(c: char)
  {
    || c == '\t' || c == '\n' || c == '\U{000B}' || c == '\U{000C}' || c == '\r' || c == ' '
    || c == '\U{00A0}' || c == '\U{1680}' || ('\U{2000}' <= c <= '\U{200A}')
    || c == '\U{2028}' || c == '\U{2029}' || c == '\U{202F}' || c == '\U{205F}'
    || c == '\U{3000}' || c == '\U{FEFF}'
  }

  /** Drops leading white space. */
  function TrimStart(s: string): string
    decreases |s|
  {
    if s != [] && IsWhitespace(s[0]) then TrimStart(s[1..]) else s
  }

  /** Drops trailing white space. */
  function TrimEnd(s: string): string
    decreases |s|
  {
    if s != [] && IsWhitespace(s[|s| - 1]) then TrimEnd(s[..|s| - 1]) else s
  }

  /** `TrimStart` keeps a suffix of `s` that does not start with white space, and drops only white space. */
  lemma {:induction false} TrimStartSuffix(s: string)
    ensures var r := TrimStart(s);
      && |r| <= |s| && r == s[|s| - |r|..]
      && (forall i :: 0 <= i < |s| - |r| ==> IsWhitespace(s[i]))
      && (r == [] || !IsWhitespace(r[0]))
    decreases |s|
  {
    if s != [] && IsWhitespace(s[0]) {
      TrimStartSuffix(s[1..]);
    }
  }

  /** `TrimEnd` keeps a prefix of `s` that does not end with white space, and drops only white space. */
  lemma {:induction false} TrimEndPrefix(s: string)
    ensures var r := TrimEnd(s);
      && |r| <= |s| && r == s[..|r|]
      && (forall i :: |r| <= i < |s| ==> IsWhitespace(s[i]))
      && (r == [] || !IsWhitespace(r[|r| - 1]))
    decreases |s|
  {
    if s != [] && IsWhitespace(s[|s| - 1]) {
      TrimEndPrefix(s[..|s| - 1]);
    }
  }

  /** `s.trim()`. */
  function Trim(s: string): string
  {
    TrimEnd(TrimStart(s))
  }

  /** A string with no white space at either end is its own trim. */
  lemma TrimUnpadded(s: string)
    requires s == [] || (!IsWhitespace(s[0]) && !IsWhitespace(s[|s| - 1]))
    ensures Trim(s) == s
  {
  }

  predicate AllWhitespace(s: string)
  {
    forall i :: 0 <= i < |s| ==> IsWhitespace(s[i])
  }

  /** Leading white space in front of a text that starts with none is dropped. */
  lemma {:induction false} TrimStartDropsPrefix(ws: string, a: string)
    requires AllWhitespace(ws)
    requires a == [] || !IsWhitespace(a[0])
    ensures TrimStart(ws + a) == a
    decreases |ws|
  {
    if ws == [] {
      assert ws + a == a;
    } else {
      assert (ws + a)[1..] == ws[1..] + a;
      TrimStartDropsPrefix(ws[1..], a);
    }
  }

  /** Trailing white space after a text that ends with none is dropped. */
  lemma {:induction false} TrimEndDropsSuffix(a: string, ws: string)
    requires AllWhitespace(ws)
    requires a == [] || !IsWhitespace(a[|a| - 1])
    ensures TrimEnd(a + ws) == a
    decreases |ws|
  {
    if ws == [] {
      assert a + ws == a;
    } else {
      var s := a + ws;
      assert s[|s| - 1] == ws[|ws| - 1];
      assert s[..|s| - 1] == a + ws[..|ws| - 1];
      TrimEndDropsSuffix(a, ws[..|ws| - 1]);
    }
  }

  /** Trimming a text wrapped in white space gives back the text. */
  lemma TrimDropsPadding(ws1: string, a: string, ws2: string)
    requires AllWhitespace(ws1) && AllWhitespace(ws2)
    requires a != [] && !IsWhitespace(a[0]) && !IsWhitespace(a[|a| - 1])
    ensures Trim(ws1 + a + ws2) == a
  {
    assert ws1 + a + ws2 == ws1 + (a + ws2);
    TrimStartDropsPrefix(ws1, a + ws2);
    TrimEndDropsSuffix(a, ws2);
  }

  /**
   * The lower-case mapping of `toLowerCase` on the letters it is modelled for:
   * ASCII `A`-`Z` and the Latin-1 capitals U+00C0 to U+00DE (except the multiplication sign U+00D7), which cover
   * the Portuguese names the agenda holds.
   */
  function LowerChar(c: char): char
  {
    if 'A' <= c <= 'Z' || ('\U{00C0}' <= c <= '\U{00DE}' && c != '\U{00D7}') then
      (c as int + 32) as char
    else c
  }

  /** `s.toLowerCase()`, character by character. */
  function ToLower(s: string): string
  {
    seq(|s|, i requires 0 <= i < |s| => LowerChar(s[i]))
  }

  /** Lower-casing is idempotent. */
  lemma ToLowerIdempotent(s: string)
    ensures ToLower(ToLower(s)) == ToLower(s)
  {
  }

  /** Lower-casing never changes which characters are white space. */
  lemma LowerCharKeepsWhitespace(c: char)
    ensures IsWhitespace(LowerChar(c)) == IsWhitespace(c)
  {
  }

  /** Trimming and lower-casing commute, so the order the server applies them in does not matter. */
  lemma {:induction false} TrimToLowerCommute(s: string)
    ensures ToLower(Trim(s)) == Trim(ToLower(s))
  {
    TrimStartToLower(s);
    TrimEndToLower(TrimStart(s));
  }

  lemma {:induction false} TrimStartToLower(s: string)
    ensures ToLower(TrimStart(s)) == TrimStart(ToLower(s))
    decreases |s|
  {
    if s != [] {
      LowerCharKeepsWhitespace(s[0]);
      assert ToLower(s)[0] == LowerChar(s[0]);
      assert ToLower(s)[1..] == ToLower(s[1..]);
      if IsWhitespace(s[0]) {
        TrimStartToLower(s[1..]);
      }
    }
  }

  lemma {:induction false} TrimEndToLower(s: string)
    ensures ToLower(TrimEnd(s)) == TrimEnd(ToLower(s))
    decreases |s|
  {
    if s != [] {
      var n := |s| - 1;
      LowerCharKeepsWhitespace(s[n]);
      assert ToLower(s)[n] == LowerChar(s[n]);
      assert ToLower(s)[..n] == ToLower(s[..n]);
      if IsWhitespace(s[n]) {
        TrimEndToLower(s[..n]);
      }
    }
  }

  /** `s.startsWith(prefix)`. */
  predicate StartsWith(s: string, prefix: string)
  {
    |prefix| <= |s| && s[..|prefix|] == prefix
  }

  /** `s.includes(sub)`, scanning start positions left to right. */
  predicate Includes(s: string, sub: string)
    decreases |s|
  {
    StartsWith(s, sub) || (s != [] && Includes(s[1..], sub))
  }

  /** `sub` occurs in `s` starting at position `i`. */
  predicate OccursAt(s: string, sub: string, i: int)
  {
    0 <= i <= |s| - |sub| && s[i..i + |sub|] == sub
  }

  /** `includes` holds exactly when `sub` occurs at some position of `s`. */
  lemma {:induction false} IncludesIff(s: string, sub: string)
    ensures Includes(s, sub) <==> exists i :: OccursAt(s, sub, i)
    decreases |s|
  {
    if StartsWith(s, sub) {
      assert OccursAt(s, sub, 0);
    } else if s == [] {
    } else {
      IncludesIff(s[1..], sub);
      if exists i :: OccursAt(s, sub, i) {
        var i :| OccursAt(s, sub, i);
        assert i != 0;
        assert s[1..][i - 1..i - 1 + |sub|] == s[i..i + |sub|];
        assert OccursAt(s[1..], sub, i - 1);
      }
      if Includes(s[1..], sub) {
        var j :| OccursAt(s[1..], sub, j);
        assert s[1..][j..j + |sub|] == s[j + 1..j + 1 + |sub|];
        assert OccursAt(s, sub, j + 1);
      }
    }
  }

  /** Lower-casing commutes with taking a slice. */
  lemma ToLowerSlice(s: string, i: int, j: int)
    requires 0 <= i <= j <= |s|
    ensures ToLower(s)[i..j] == ToLower(s[i..j])
  {
  }

  /** A text, lower-cased, includes its own trimmed and lower-cased form. */
  lemma IncludesOwnTrim(s: string)
    ensures Includes(ToLower(s), ToLower(Trim(s)))
  {
    var t1 := TrimStart(s);
    TrimStartSuffix(s);
    var i := |s| - |t1|;
    var t := TrimEnd(t1);
    TrimEndPrefix(t1);
    assert t == s[i..i + |t|];
    ToLowerSlice(s, i, i + |t|);
    assert OccursAt(ToLower(s), ToLower(t), i);
    IncludesIff(ToLower(s), ToLower(t));
  }

  /** `s.padStart(width, fill)` with a one-character fill. */
  function PadStart(s: string, width: nat, fill: char): (r: string)
    ensures |r| == if |s| < width then width else |s|
    ensures r[|r| - |s|..] == s
    ensures forall i :: 0 <= i < |r| - |s| ==> r[i] == fill
  {
    if |s| < width then seq(width - |s|, _ => fill) + s else s
  }
}
