/**
  * Strings as JavaScript sees them: the character classes its regular
  * expressions use, `trim`, `split` and `join` on one character, first-match
  * `replace` with a string pattern, ASCII lower-casing, and the decimal
  * digits `Number.prototype.toString` prints.
  */
module Text {
  import opened Wrappers

  type Str = seq<char>

  /** The characters after which `^` matches under the `m` flag, and which `.` refuses. */
  predicate IsLineTerminator(c: char) {
    c == '\n' || c == '\r' || c == '\U{2028}' || c == '\U{2029}'
  }

  /** JavaScript `\s`: white space and line terminators; also what `trim` removes. */
  predicate IsSpace(c: char) {
    || c == '\t' || c == '\n' || c == '\U{B}' || c == '\U{C}' || c == '\r' || c == ' '
    || c == '\U{A0}' || c == '\U{1680}' || ('\U{2000}' <= c <= '\U{200A}')
    || c == '\U{2028}' || c == '\U{2029}' || c == '\U{202F}' || c == '\U{205F}'
    || c == '\U{3000}' || c == '\U{FEFF}'
  }

  /** JavaScript `\w` (without the `u` and `i` flags): ASCII letters, digits and `_`. */
  predicate IsWordChar(c: char) {
    ('a' <= c <= 'z') || ('A' <= c <= 'Z') || ('0' <= c <= '9') || c == '_'
  }

  lemma LineTerminatorIsSpace(c: char)
    ensures IsLineTerminator(c) ==> IsSpace(c)
  {
  }

  /** JavaScript's `a || d` on an optional string: the empty string is falsy too. */
  function Or(a: Option<Str>, d: Str): (r: Str)
    ensures a.Some? && a.value != [] ==> r == a.value
    ensures (a.None? || a.value == []) ==> r == d
  {
    if a.Some? && a.value != [] then a.value else d
  }

  /** Truthiness of an optional string in a JavaScript condition. */
  predicate Present(a: Option<Str>) {
    a.Some? && a.value != []
  }

  // ----- lower-casing -----

  function LowerChar(c: char): char {
    if 'A' <= c <= 'Z' then (c as int + 32) as char else c
  }

  /** `toLowerCase` restricted to the ASCII letters. */
  function Lower(s: Str): (r: Str)
    ensures |r| == |s|
    ensures forall i :: 0 <= i < |s| ==> r[i] == LowerChar(s[i])
  {
    seq(|s|, i requires 0 <= i < |s| => LowerChar(s[i]))
  }

  lemma LowerKeepsWordClass(c: char)
    ensures IsWordChar(LowerChar(c)) <==> IsWordChar(c)
    ensures !('A' <= LowerChar(c) <= 'Z')
  {
  }

  // ----- trim -----

  /** `trimStart`: drops the leading `\s` run and nothing else. */
  function TrimStart(s: Str): (r: Str)
    ensures |r| <= |s| && r == s[|s| - |r|..]
    ensures r == [] || !IsSpace(r[0])
    ensures forall i :: 0 <= i < |s| - |r| ==> IsSpace(s[i])
    decreases |s|
  {
    if |s| > 0 && IsSpace(s[0]) then TrimStart(s[1..]) else s
  }

  /** `trimEnd`: drops the trailing `\s` run and nothing else. */
  function TrimEnd(s: Str): (r: Str)
    ensures |r| <= |s| && r == s[..|r|]
    ensures r == [] || !IsSpace(r[|r| - 1])
    ensures forall i :: |r| <= i < |s| ==> IsSpace(s[i])
    decreases |s|
  {
    if |s| > 0 && IsSpace(s[|s| - 1]) then TrimEnd(s[..|s| - 1]) else s
  }

  function Trim(s: Str): Str {
    TrimEnd(TrimStart(s))
  }

  /** `trim` returns the middle of its input with no white space at either end. */
  lemma TrimIsMiddle(s: Str) returns (k: nat, t: Str)
    ensures t == Trim(s)
    ensures k + |t| <= |s| && t == s[k..k + |t|]
    ensures forall i :: 0 <= i < k ==> IsSpace(s[i])
    ensures forall i :: k + |t| <= i < |s| ==> IsSpace(s[i])
    ensures t == [] || (!IsSpace(t[0]) && !IsSpace(t[|t| - 1]))
  {
    var a := TrimStart(s);
    k := |s| - |a|;
    t := TrimEnd(a);
    MiddleOf(s, k, a, t);
  }

  /** A start-trimmed suffix `a` of `s`, end-trimmed to `t`, leaves `t` in the middle of `s` with blanks around it. */
  lemma MiddleOf(s: Str, k: nat, a: Str, t: Str)
    requires k <= |s| && a == s[k..] && forall i :: 0 <= i < k ==> IsSpace(s[i])
    requires a == [] || !IsSpace(a[0])
    requires |t| <= |a| && t == a[..|t|] && forall i :: |t| <= i < |a| ==> IsSpace(a[i])
    requires t == [] || !IsSpace(t[|t| - 1])
    ensures k + |t| <= |s| && t == s[k..k + |t|]
    ensures forall i :: 0 <= i < k ==> IsSpace(s[i])
    ensures forall i :: k + |t| <= i < |s| ==> IsSpace(s[i])
    ensures t == [] || (!IsSpace(t[0]) && !IsSpace(t[|t| - 1]))
  {
    forall i | k + |t| <= i < |s| ensures IsSpace(s[i]) {
      assert s[i] == a[i - k];
    }
    if t != [] {
      assert t[0] == a[0];
    }
  }

  /** Each piece trimmed. */
  function Trims(pieces: seq<Str>): (r: seq<Str>)
    ensures |r| == |pieces| && forall i :: 0 <= i < |pieces| ==> r[i] == Trim(pieces[i])
  {
    seq(|pieces|, i requires 0 <= i < |pieces| => Trim(pieces[i]))
  }

  /** `Trims` is determined pointwise. */
  lemma TrimsOf(p: seq<Str>, u: seq<Str>)
    requires |p| == |u| && forall k :: 0 <= k < |p| ==> u[k] == Trim(p[k])
    ensures Trims(p) == u
  {
  }

  lemma TrimLeadingSpace(c: char, t: Str)
    requires IsSpace(c)
    ensures Trim([c] + t) == Trim(t)
  {
    assert ([c] + t)[1..] == t;
  }

  /** A string with no white space at its ends is its own trim. */
  lemma {:induction false} TrimOfTrimmed(s: Str)
    requires s == [] || (!IsSpace(s[0]) && !IsSpace(s[|s| - 1]))
    ensures Trim(s) == s
  {
  }

  /** Trimming twice trims nothing more. */
  lemma TrimTwice(s: Str)
    ensures Trim(Trim(s)) == Trim(s)
  {
    var _, t := TrimIsMiddle(s);
    TrimOfTrimmed(t);
  }

  /** A character absent from a string is absent from its trim. */
  lemma TrimKeepsOut(s: Str, c: char)
    requires c !in s
    ensures c !in Trim(s)
  {
    var k, t := TrimIsMiddle(s);
    forall j | 0 <= j < |t| ensures t[j] != c {
      assert t[j] == s[k + j];
    }
  }

  // ----- searching -----

  /** The first index of `c` in `s`, as `indexOf` finds it. */
  function IndexOf(s: Str, c: char): (r: Option<nat>)
    ensures r.None? <==> c !in s
    ensures r.Some? ==> r.value < |s| && s[r.value] == c && c !in s[..r.value]
    decreases |s|
  {
    if |s| == 0 then None
    else if s[0] == c then Some(0)
    else
      var r := IndexOf(s[1..], c);
      if r.None? then None
      else
        assert s[1..][..r.value] == s[1..r.value + 1];
        Some(r.value + 1)
  }

  /** The position of the last `c` in `s`. */
  function LastIndexOf(s: Str, c: char): (r: Option<nat>)
    ensures r.None? <==> c !in s
    ensures r.Some? ==> r.value < |s| && s[r.value] == c && forall j :: r.value < j < |s| ==> s[j] != c
    decreases |s|
  {
    if s == [] then None
    else if s[|s| - 1] == c then Some(|s| - 1)
    else LastIndexOf(s[..|s| - 1], c)
  }

  /** The last `c` in `a + [c] + b`, when `b` holds none, is the one between them. */
  lemma {:induction false} LastIndexOfBefore(a: Str, c: char, b: Str)
    requires c !in b
    ensures LastIndexOf(a + [c] + b, c) == Some(|a|)
    decreases |b|
  {
    var s := a + [c] + b;
    if b == [] {
      assert s[|s| - 1] == c;
    } else {
      assert s[|s| - 1] == b[|b| - 1];
      assert b[|b| - 1] in b;
      assert s[..|s| - 1] == a + [c] + b[..|b| - 1];
      var init := b[..|b| - 1];
      assert c !in init by {
        forall j | 0 <= j < |init| ensures init[j] != c {
          assert init[j] == b[j];
        }
      }
      LastIndexOfBefore(a, c, init);
    }
  }

  lemma {:induction false} IndexOfAfter(a: Str, c: char, b: Str)
    requires c !in a
    ensures IndexOf(a + [c] + b, c) == Some(|a|)
    decreases |a|
  {
    var s := a + [c] + b;
    if |a| > 0 {
      assert s[0] == a[0] != c;
      assert s[1..] == a[1..] + [c] + b;
      IndexOfAfter(a[1..], c, b);
    }
  }

  lemma {:induction false} IndexOfPrefix(a: Str, b: Str, c: char)
    requires c in a
    ensures IndexOf(a + b, c) == IndexOf(a, c)
    decreases |a|
  {
    if a[0] != c {
      assert (a + b)[0] == a[0];
      assert (a + b)[1..] == a[1..] + b;
      assert c in a[1..] by {
        var k :| 0 <= k < |a| && a[k] == c;
        assert a[1..][k - 1] == c;
      }
      IndexOfPrefix(a[1..], b, c);
    }
  }

  /** `pat` occurs in `s` starting at index `k`. */
  predicate OccursAt(s: Str, pat: Str, k: nat) {
    k + |pat| <= |s| && s[k..k + |pat|] == pat
  }

  /** The first occurrence of `pat` in `s` at or after `from`. */
  function FindFrom(s: Str, pat: Str, from: nat): (r: Option<nat>)
    requires from <= |s|
    ensures r.Some? ==> from <= r.value && OccursAt(s, pat, r.value)
    ensures forall j :: from <= j && (r.None? || j < r.value) ==> !OccursAt(s, pat, j)
    decreases |s| - from
  {
    if from + |pat| > |s| then None
    else if s[from..from + |pat|] == pat then Some(from)
    else FindFrom(s, pat, from + 1)
  }

  /** `s.replace(pat, rep)` with a string pattern: only the first occurrence is replaced. */
  function ReplaceFirst(s: Str, pat: Str, rep: Str): (r: Str)
    ensures FindFrom(s, pat, 0).None? ==> r == s
    ensures FindFrom(s, pat, 0).Some? ==>
              var k := FindFrom(s, pat, 0).value;
              |r| == |s| - |pat| + |rep| && r[..k] == s[..k] && r[k..k + |rep|] == rep
              && r[k + |rep|..] == s[k + |pat|..]
  {
    var k := FindFrom(s, pat, 0);
    if k.None? then s else s[..k.value] + rep + s[k.value + |pat|..]
  }

  /** When the first occurrence of `pat` ends the string, the replacement ends it instead. */
  lemma ReplaceAtEnd(s: Str, pat: Str, rep: Str)
    requires |pat| <= |s| && FindFrom(s, pat, 0) == Some(|s| - |pat|)
    ensures ReplaceFirst(s, pat, rep) == s[..|s| - |pat|] + rep
  {
    var r := ReplaceFirst(s, pat, rep);
    var k := |s| - |pat|;
    assert r == r[..k] + r[k..k + |rep|];
  }

  // ----- split and join on one character -----

  /** `s.split(sep)` for a one-character separator: always at least one piece. */
  function Split(s: Str, sep: char): (parts: seq<Str>)
    ensures |parts| >= 1
    decreases |s|
  {
    var k := IndexOf(s, sep);
    if k.None? then [s] else [s[..k.value]] + Split(s[k.value + 1..], sep)
  }

  /** No piece of a split holds the separator. */
  lemma {:induction false} SplitPiecesFree(s: Str, sep: char)
    ensures forall i :: 0 <= i < |Split(s, sep)| ==> sep !in Split(s, sep)[i]
    decreases |s|
  {
    var k := IndexOf(s, sep);
    if k.Some? {
      SplitPiecesFree(s[k.value + 1..], sep);
    }
  }

  /** `parts.join(sep)`. */
  function Join(parts: seq<Str>, sep: char): Str
    decreases |parts|
  {
    if |parts| == 0 then []
    else if |parts| == 1 then parts[0]
    else parts[0] + [sep] + Join(parts[1..], sep)
  }

  lemma SplitNone(s: Str, sep: char)
    requires sep !in s
    ensures Split(s, sep) == [s]
  {
  }

  lemma SplitSome(s: Str, sep: char, i: nat)
    requires IndexOf(s, sep) == Some(i)
    ensures Split(s, sep) == [s[..i]] + Split(s[i + 1..], sep)
  {
  }

  lemma SliceAround(a: Str, m: Str, b: Str)
    ensures (a + m + b)[..|a|] == a && (a + m + b)[|a| + |m|..] == b
  {
  }

  /** Joining the pieces of a split gives back the string. */
  lemma {:induction false} JoinSplit(s: Str, sep: char)
    ensures Join(Split(s, sep), sep) == s
    decreases |s|
  {
    var k := IndexOf(s, sep);
    if k.None? {
      SplitNone(s, sep);
    } else {
      var i := k.value;
      SplitSome(s, sep, i);
      var rest := Split(s[i + 1..], sep);
      assert ([s[..i]] + rest)[1..] == rest;
      JoinSplit(s[i + 1..], sep);
      assert s == s[..i] + [sep] + s[i + 1..];
    }
  }

  /** Splitting a join of separator-free pieces gives back the pieces. */
  lemma {:induction false} SplitJoin(parts: seq<Str>, sep: char)
    requires |parts| >= 1
    requires forall i :: 0 <= i < |parts| ==> sep !in parts[i]
    ensures Split(Join(parts, sep), sep) == parts
    decreases |parts|
  {
    if |parts| == 1 {
      SplitNone(parts[0], sep);
    } else {
      var rest := Join(parts[1..], sep);
      var s := parts[0] + [sep] + rest;
      IndexOfAfter(parts[0], sep, rest);
      SliceAround(parts[0], [sep], rest);
      SplitSome(s, sep, |parts[0]|);
      SplitJoin(parts[1..], sep);
      assert parts == [parts[0]] + parts[1..];
    }
  }

  lemma JoinAppend(parts: seq<Str>, last: Str, sep: char)
    requires |parts| >= 1
    ensures Join(parts + [last], sep) == Join(parts, sep) + [sep] + last
    decreases |parts|
  {
    if |parts| == 1 {
      assert parts + [last] == [parts[0], last];
    } else {
      assert (parts + [last])[1..] == parts[1..] + [last];
      JoinAppend(parts[1..], last, sep);
    }
  }

  lemma JoinFirst(st: seq<Str>, sep: char)
    requires |st| >= 1 && st[0] != []
    ensures |Join(st, sep)| >= 1 && Join(st, sep)[0] == st[0][0]
  {
  }

  /** Splitting at one occurrence of the separator splits the two sides independently. */
  lemma {:induction false} SplitConcat(a: Str, b: Str, c: char)
    ensures Split(a + [c] + b, c) == Split(a, c) + Split(b, c)
    decreases |a|
  {
    var k := IndexOf(a, c);
    if k.None? {
      SplitConcatFirst(a, b, c);
    } else {
      SplitConcat(a[k.value + 1..], b, c);
      SplitConcatLater(a, b, c, k.value);
    }
  }

  lemma SplitConcatFirst(a: Str, b: Str, c: char)
    requires c !in a
    ensures Split(a + [c] + b, c) == Split(a, c) + Split(b, c)
  {
    var s := a + [c] + b;
    IndexOfAfter(a, c, b);
    SliceAround(a, [c], b);
    SplitSome(s, c, |a|);
    SplitNone(a, c);
  }

  lemma SplitConcatLater(a: Str, b: Str, c: char, i: nat)
    requires IndexOf(a, c) == Some(i)
    requires Split(a[i + 1..] + [c] + b, c) == Split(a[i + 1..], c) + Split(b, c)
    ensures Split(a + [c] + b, c) == Split(a, c) + Split(b, c)
  {
    var s := a + [c] + b;
    var rest := a[i + 1..] + [c] + b;
    assert Split(s, c) == [a[..i]] + Split(rest, c) by {
      IndexOfBefore(a, b, c, i);
      SlicesAroundSep(a, b, c, i);
      SplitSome(s, c, i);
    }
    assert Split(a, c) == [a[..i]] + Split(a[i + 1..], c) by {
      SplitSome(a, c, i);
    }
    ConsAssoc(a[..i], Split(a[i + 1..], c), Split(b, c));
  }

  lemma ConsAssoc<T>(x: T, u: seq<T>, v: seq<T>)
    ensures [x] + (u + v) == ([x] + u) + v
  {
  }

  lemma IndexOfBefore(a: Str, b: Str, c: char, i: nat)
    requires IndexOf(a, c) == Some(i)
    ensures IndexOf(a + [c] + b, c) == Some(i)
  {
    IndexOfPrefix(a, [c] + b, c);
    assert a + [c] + b == a + ([c] + b);
  }

  lemma SlicesAroundSep(a: Str, b: Str, c: char, i: nat)
    requires i < |a|
    ensures (a + [c] + b)[..i] == a[..i] && (a + [c] + b)[i + 1..] == a[i + 1..] + [c] + b
  {
  }

  // ----- decimal numerals -----

  function DigitChar(d: nat): char
    requires d < 10
  {
    ('0' as int + d) as char
  }

  predicate IsDigit(c: char) {
    '0' <= c <= '9'
  }

  /** The decimal numeral of `n`, without leading zeros, as `String(n)` prints it. */
  function Decimal(n: nat): (r: Str)
    ensures |r| >= 1
    ensures forall i :: 0 <= i < |r| ==> IsDigit(r[i])
    ensures r[0] == '0' ==> n == 0
    decreases n
  {
    if n < 10 then [DigitChar(n)] else Decimal(n / 10) + [DigitChar(n % 10)]
  }

  /** The value of a string of decimal digits. */
  function DecimalValue(s: Str): nat
    requires forall i :: 0 <= i < |s| ==> IsDigit(s[i])
    decreases |s|
  {
    if |s| == 0 then 0
    else
      assert IsDigit(s[|s| - 1]);
      DecimalValue(s[..|s| - 1]) * 10 + (s[|s| - 1] as int - '0' as int)
  }

  /** Reading back a printed numeral gives the number. */
  lemma {:induction false} DecimalRoundTrip(n: nat)
    ensures DecimalValue(Decimal(n)) == n
    decreases n
  {
    if n >= 10 {
      DecimalRoundTrip(n / 10);
      var r := Decimal(n);
      assert r[..|r| - 1] == Decimal(n / 10);
    }
  }
}
