/**
  * The table of contents of the HTML export: the headings the pattern
  * `/^#{1,3}\s+.+$/gm` finds in the raw markdown, each turned into a list
  * entry with a level, a display text, an anchor id and an indent.
  *
  * The pattern is modelled as a JavaScript engine runs it. `\s` also
  * matches line terminators, so a line holding only `#` and white space
  * runs on into the next line; `LinesAgree` shows that on text without
  * such lines the matches are exactly the heading lines.
  */
module Toc {
  import opened Wrappers
  import opened Text

  // ----- scanning helpers -----

  /** The length of the run of `#` starting at `i`. */
  function HashRun(s: Str, i: nat): (n: nat)
    requires i <= |s|
    ensures i + n <= |s|
    ensures forall k :: i <= k < i + n ==> s[k] == '#'
    ensures i + n == |s| || s[i + n] != '#'
    decreases |s| - i
  {
    if i < |s| && s[i] == '#' then 1 + HashRun(s, i + 1) else 0
  }

  /** The first index at or after `i` that is not `\s`, or `|s|`. */
  function SpaceEnd(s: Str, i: nat): (e: nat)
    requires i <= |s|
    ensures i <= e <= |s|
    ensures forall k :: i <= k < e ==> IsSpace(s[k])
    ensures e == |s| || !IsSpace(s[e])
    decreases |s| - i
  {
    if i < |s| && IsSpace(s[i]) then SpaceEnd(s, i + 1) else i
  }

  /** The first line terminator at or after `i`, or `|s|`. */
  function LineEnd(s: Str, i: nat): (e: nat)
    requires i <= |s|
    ensures i <= e <= |s|
    ensures forall k :: i <= k < e ==> !IsLineTerminator(s[k])
    ensures e == |s| || IsLineTerminator(s[e])
    decreases |s| - i
  {
    if i < |s| && !IsLineTerminator(s[i]) then LineEnd(s, i + 1) else i
  }

  /** The last index in `[lo, hi)` whose character is not a line terminator. */
  function LastNonTerminator(s: Str, lo: nat, hi: nat): (r: Option<nat>)
    requires lo <= hi <= |s|
    ensures r.Some? ==> lo <= r.value < hi && !IsLineTerminator(s[r.value])
    ensures r.None? ==> forall k :: lo <= k < hi ==> IsLineTerminator(s[k])
    decreases hi - lo
  {
    if lo == hi then None
    else if !IsLineTerminator(s[hi - 1]) then Some(hi - 1)
    else LastNonTerminator(s, lo, hi - 1)
  }

  /** Where `^` matches under the `m` flag. */
  predicate AtLineStart(s: Str, p: nat)
    requires p <= |s|
  {
    p == 0 || IsLineTerminator(s[p - 1])
  }

  // ----- the pattern -----

  /**
    * Where a match of `#{1,3}\s+.+$` that starts at `p` ends, if one does.
    * `#{1,3}` must take the whole `#` run; greedy `\s+` takes the white-space
    * run, and when that run reaches the end of the text it gives back
    * characters until `.+` can take one that is not a line terminator.
    */
  function MatchAt(s: Str, p: nat): (r: Option<nat>)
    requires p <= |s|
    ensures r.Some? ==>
              var n := HashRun(s, p);
              && 1 <= n <= 3 && p + n < |s| && IsSpace(s[p + n])
              && p + n + 2 <= r.value <= |s|
              && !IsLineTerminator(s[r.value - 1])
              && (r.value == |s| || IsLineTerminator(s[r.value]))
  {
    var n := HashRun(s, p);
    if n < 1 || n > 3 || p + n == |s| || !IsSpace(s[p + n]) then None
    else
      var r := SpaceEnd(s, p + n);
      if r < |s| then
        LineTerminatorIsSpace(s[r]);
        var e := LineEnd(s, r);
        assert e > r;
        Some(e)
      else
        var j := LastNonTerminator(s, p + n + 1, |s|);
        if j.None? then None
        else
          var e := LineEnd(s, j.value);
          assert e > j.value;
          Some(e)
  }

  /** One match: where it starts and the text it covers. */
  datatype Match = Match(start: nat, text: Str)

  ghost predicate ValidMatch(s: Str, m: Match) {
    && m.start + |m.text| <= |s|
    && s[m.start..m.start + |m.text|] == m.text
    && AtLineStart(s, m.start)
    && MatchAt(s, m.start) == Some(m.start + |m.text|)
  }

  /**
    * All matches of the heading pattern from position `pos`: each search
    * resumes where the previous match ended.
    */
  function Scan(s: Str, pos: nat): (ms: seq<Match>)
    requires pos <= |s|
    ensures forall k :: 0 <= k < |ms| ==> pos <= ms[k].start && ValidMatch(s, ms[k])
    ensures forall k, l :: 0 <= k < l < |ms| ==> ms[k].start + |ms[k].text| <= ms[l].start
    ensures Complete(s, pos, ms)
    decreases |s| - pos
  {
    if pos == |s| then []
    else if AtLineStart(s, pos) && MatchAt(s, pos).Some? then
      var e := MatchAt(s, pos).value;
      var m := Match(pos, s[pos..e]);
      var rest := Scan(s, e);
      assert ValidMatch(s, m) by {
        FoundMatch(s, pos);
      }
      ConsValid(s, m, rest);
      ConsOrdered(m, e, rest);
      ConsComplete(s, pos, m, rest);
      [m] + rest
    else
      SkipComplete(s, pos, Scan(s, pos + 1));
      Scan(s, pos + 1)
  }

  /** Some match of `ms` covers position `q`. */
  ghost predicate Covered(ms: seq<Match>, q: nat) {
    exists k :: 0 <= k < |ms| && ms[k].start <= q < ms[k].start + |ms[k].text|
  }

  /**
    * No match is missed: every line start from `pos` on where the pattern
    * matches lies inside one of the matches found (the search skips only
    * the positions a match already covers).
    */
  ghost predicate Complete(s: Str, pos: nat, ms: seq<Match>)
    requires pos <= |s|
  {
    forall q :: pos <= q < |s| && AtLineStart(s, q) && MatchAt(s, q).Some? ==> Covered(ms, q)
  }

  lemma ConsComplete(s: Str, pos: nat, m: Match, rest: seq<Match>)
    requires pos < |s| && m.start == pos && MatchAt(s, pos) == Some(pos + |m.text|)
    requires Complete(s, pos + |m.text|, rest)
    ensures Complete(s, pos, [m] + rest)
  {
    var ms := [m] + rest;
    forall q | pos <= q < |s| && AtLineStart(s, q) && MatchAt(s, q).Some?
      ensures Covered(ms, q)
    {
      if q < pos + |m.text| {
        assert ms[0] == m;
      } else {
        var k :| 0 <= k < |rest| && rest[k].start <= q < rest[k].start + |rest[k].text|;
        assert ms[k + 1] == rest[k];
      }
    }
  }

  lemma SkipComplete(s: Str, pos: nat, rest: seq<Match>)
    requires pos < |s| && !(AtLineStart(s, pos) && MatchAt(s, pos).Some?)
    requires Complete(s, pos + 1, rest)
    ensures Complete(s, pos, rest)
  {
  }

  lemma FoundMatch(s: Str, pos: nat)
    requires pos < |s| && AtLineStart(s, pos) && MatchAt(s, pos).Some?
    ensures ValidMatch(s, Match(pos, s[pos..MatchAt(s, pos).value]))
  {
  }

  lemma ConsValid(s: Str, m: Match, rest: seq<Match>)
    requires ValidMatch(s, m) && forall k :: 0 <= k < |rest| ==> ValidMatch(s, rest[k])
    ensures forall k :: 0 <= k < |[m] + rest| ==> ValidMatch(s, ([m] + rest)[k])
  {
    var ms := [m] + rest;
    forall k | 0 < k < |ms| ensures ms[k] == rest[k - 1] {
    }
  }

  /** A match ending at `e`, followed by matches from `e` on, keeps the scan's order. */
  lemma ConsOrdered(m: Match, e: nat, rest: seq<Match>)
    requires m.start + |m.text| == e
    requires forall k :: 0 <= k < |rest| ==> e <= rest[k].start
    requires forall k, l :: 0 <= k < l < |rest| ==> rest[k].start + |rest[k].text| <= rest[l].start
    ensures var ms := [m] + rest;
            && (forall k :: 0 <= k < |ms| ==> m.start <= ms[k].start)
            && (forall k, l :: 0 <= k < l < |ms| ==> ms[k].start + |ms[k].text| <= ms[l].start)
  {
    var ms := [m] + rest;
    forall k | 0 < k < |ms| ensures ms[k] == rest[k - 1] {
    }
  }

  function Texts(ms: seq<Match>): (r: seq<Str>)
    ensures |r| == |ms|
    ensures forall k :: 0 <= k < |ms| ==> r[k] == ms[k].text
  {
    seq(|ms|, k requires 0 <= k < |ms| => ms[k].text)
  }

  /** The headings the table of contents lists, in document order (no match gives none). */
  function Headings(md: Str): seq<Str> {
    Texts(Scan(md, 0))
  }

  // ----- entries -----

  datatype Entry = Entry(level: nat, text: Str, anchor: Str)

  /** The length of the leading `#` run, or 1 when there is none. */
  function Level(h: Str): (l: nat)
    ensures l >= 1
  {
    var n := HashRun(h, 0);
    if n == 0 then 1 else n
  }

  /** The displayed text: the leading `#` run and the white space after it removed. */
  function HeadingText(h: Str): Str {
    var n := HashRun(h, 0);
    if n >= 1 && n < |h| && IsSpace(h[n]) then h[SpaceEnd(h, n)..] else h
  }

  /** The length of the run of non-word characters starting at `i`. */
  function NonWordEnd(s: Str, i: nat): (e: nat)
    requires i <= |s|
    ensures i <= e <= |s|
    ensures forall k :: i <= k < e ==> !IsWordChar(s[k])
    ensures e == |s| || IsWordChar(s[e])
    decreases |s| - i
  {
    if i < |s| && !IsWordChar(s[i]) then NonWordEnd(s, i + 1) else i
  }

  /** The anchor of a lower-cased text: each maximal run of non-word characters becomes one `-`. */
  function Slug(s: Str): (r: Str)
    ensures |r| <= |s|
    ensures forall k :: 0 <= k < |r| ==> IsWordChar(r[k]) || r[k] == '-'
    ensures forall k :: 0 <= k < |r| - 1 ==> !(r[k] == '-' && r[k + 1] == '-')
    ensures s != [] && IsWordChar(s[0]) ==> r != [] && r[0] == s[0]
    ensures s != [] && !IsWordChar(s[0]) ==> r != [] && r[0] == '-'
    decreases |s|
  {
    if s == [] then []
    else if IsWordChar(s[0]) then [s[0]] + Slug(s[1..])
    else
      var e := NonWordEnd(s, 0);
      "-" + Slug(s[e..])
  }

  /** The anchor id: lower-cased, then runs of non-word characters collapsed to `-`. */
  function Anchor(text: Str): Str {
    Slug(Lower(text))
  }

  function EntryOf(h: Str): Entry {
    Entry(Level(h), HeadingText(h), Anchor(HeadingText(h)))
  }

  /** One entry per heading, in document order. */
  function Entries(md: Str): (es: seq<Entry>)
    ensures |es| == |Headings(md)|
    ensures forall k :: 0 <= k < |es| ==> es[k] == EntryOf(Headings(md)[k])
  {
    var hs := Headings(md);
    seq(|hs|, k requires 0 <= k < |hs| => EntryOf(hs[k]))
  }

  // ----- rendering -----

  const NavOpen: Str := "<nav class=\"toc\">" + "<h2>Table of Contents</h2><ul>"
  const NavClose: Str := "</ul></nav><hr>"

  /**
    * The indent `(level - 1) * 1.5` in rem, as JavaScript prints a
    * non-negative multiple of one half.
    */
  function IndentText(level: nat): Str
    requires level >= 1
  {
    var halves := (level - 1) * 3;
    if halves % 2 == 0 then Decimal(halves / 2) else Decimal(halves / 2) + ".5"
  }

  const ItemOpen: Str := "<li style=\"margin-left: "
  const IndentClose: Str := "rem\"><a href=\"#"
  const AnchorClose: Str := "\">"
  const ItemClose: Str := "</a></li>"

  /** One list item: the indent, then a link to the anchor showing the text. */
  function Item(e: Entry): Str
    requires e.level >= 1
  {
    ItemOpen + IndentText(e.level) + IndentClose + e.anchor + AnchorClose + e.text + ItemClose
  }

  function Items(es: seq<Entry>): Str
    requires forall k :: 0 <= k < |es| ==> es[k].level >= 1
    decreases |es|
  {
    if es == [] then [] else Item(es[0]) + Items(es[1..])
  }

  /**
    * The table of contents of a markdown text: empty when it has no heading,
    * otherwise the `<nav>` block holding one item per heading, in document
    * order, which reads back as the entries when no heading text holds `<`.
    */
  function GenerateToc(md: Str): (toc: Str)
    ensures toc == [] <==> Headings(md) == []
    ensures toc != [] ==> NavOpen <= toc && toc[0] == '<'
    ensures (forall k :: 0 <= k < |Entries(md)| ==> '<' !in Entries(md)[k].text) ==>
              ReadToc(toc) == Some(Entries(md))
  {
    EntriesReadable(md);
    Nav(Entries(md))
  }

  /** The `<nav>` block around the items, or nothing for no entries. */
  function Nav(es: seq<Entry>): (toc: Str)
    requires forall k :: 0 <= k < |es| ==> es[k].level >= 1
    ensures toc == [] <==> es == []
    ensures toc != [] ==> NavOpen <= toc && toc[0] == '<'
    ensures (forall k :: 0 <= k < |es| ==> Readable(es[k])) ==> ReadToc(toc) == Some(es)
  {
    if es == [] then []
    else
      NavPrefix(Items(es) + NavClose);
      Append3(NavOpen, Items(es), NavClose);
      TocReadBack(es);
      NavOpen + Items(es) + NavClose
  }

  lemma NavPrefix(x: Str)
    ensures NavOpen <= NavOpen + x && (NavOpen + x)[0] == '<'
  {
    NavOpenOpensTag();
  }

  // ----- reading the list back -----

  /** The rest of `t` after the prefix `p`, if `t` starts with it. */
  function Expect(t: Str, p: Str): (r: Option<Str>)
    ensures r.Some? <==> p <= t
    ensures r.Some? ==> t == p + r.value
  {
    if p <= t then
      assert t == t[..|p|] + t[|p|..];
      Some(t[|p|..])
    else None
  }

  /** `t` cut at the first occurrence of `delim`'s first character, when `delim` follows there. */
  function Take(t: Str, delim: Str): (r: Option<(Str, Str)>)
    requires delim != []
    ensures r.Some? ==> t == r.value.0 + delim + r.value.1 && delim[0] !in r.value.0
  {
    var k := IndexOf(t, delim[0]);
    if k.None? || !(delim <= t[k.value..]) then None
    else
      CutAt(t, k.value, delim);
      Some((t[..k.value], t[k.value + |delim|..]))
  }

  lemma CutAt(t: Str, i: nat, d: Str)
    requires i <= |t| && d <= t[i..]
    ensures i + |d| <= |t| && t == t[..i] + d + t[i + |d|..]
  {
    assert t[i..] == d + t[i + |d|..];
    assert t == t[..i] + t[i..];
  }

  lemma ExpectOf(p: Str, x: Str)
    ensures Expect(p + x, p) == Some(x)
  {
    assert (p + x)[..|p|] == p;
  }

  lemma TakeOf(a: Str, d: Str, b: Str)
    requires d != [] && d[0] !in a
    ensures Take(a + d + b, d) == Some((a, b))
  {
    var t := a + d + b;
    assert t == a + [d[0]] + (d[1..] + b);
    IndexOfAfter(a, d[0], d[1..] + b);
    assert t[|a|..] == d + b;
    assert t[..|a|] == a;
    assert t[|a| + |d|..] == b;
  }

  /** The level an indent was printed from. */
  function LevelOfIndent(t: Str): Option<nat> {
    match ReadIndent(t)
    case None => None
    case Some(x) =>
      var y := x / 1.5;
      var n := y.Floor;
      if y >= 0.0 && n as real == y then Some((n + 1) as nat) else None
  }

  lemma LevelRoundTrip(level: nat)
    requires level >= 1
    ensures LevelOfIndent(IndentText(level)) == Some(level)
  {
    IndentRoundTrip(level);
    var n := level - 1;
    RealThirds(n);
  }

  lemma RealThirds(n: nat)
    ensures (n as real * 1.5) / 1.5 == n as real && (n as real).Floor == n
  {
  }

  /** Reads one list item: its entry and the text after it. */
  function ReadItem(t: Str): (r: Option<(Entry, Str)>)
    ensures r.Some? ==> |r.value.1| < |t|
  {
    match Expect(t, ItemOpen)
    case None => None
    case Some(u) =>
      match Take(u, IndentClose)
      case None => None
      case Some(p) =>
        match LevelOfIndent(p.0)
        case None => None
        case Some(level) =>
          match Take(p.1, AnchorClose)
          case None => None
          case Some(q) =>
            match Take(q.1, ItemClose)
            case None => None
            case Some(v) => Some((Entry(level, v.0, q.0), v.1))
  }

  /** Reads a run of list items. */
  function ReadItems(t: Str): Option<seq<Entry>>
    decreases |t|
  {
    if t == [] then Some([])
    else
      match ReadItem(t)
      case None => None
      case Some(p) =>
        match ReadItems(p.1)
        case None => None
        case Some(es) => Some([p.0] + es)
  }

  /** Reads a table of contents: nothing, or the `<nav>` block around a run of items. */
  function ReadToc(t: Str): Option<seq<Entry>> {
    if t == [] then Some([])
    else
      match Expect(t, NavOpen)
      case None => None
      case Some(u) =>
        if |u| >= |NavClose| && u[|u| - |NavClose|..] == NavClose then ReadItems(u[..|u| - |NavClose|])
        else None
  }

  /**
    * Reads a run of list items up to the closing `</ul></nav><hr>`: the
    * entries, and the text after the close.
    */
  function ReadItemsUntil(t: Str): Option<(seq<Entry>, Str)>
    decreases |t|
  {
    if NavClose <= t then Some(([], t[|NavClose|..]))
    else
      match ReadItem(t)
      case None => None
      case Some(p) =>
        match ReadItemsUntil(p.1)
        case None => None
        case Some(q) => Some(([p.0] + q.0, q.1))
  }

  /** Reads a table of contents at the start of `t`: its entries, and the text after it. */
  function ReadTocAt(t: Str): Option<(seq<Entry>, Str)> {
    match Expect(t, NavOpen)
    case None => None
    case Some(u) => ReadItemsUntil(u)
  }

  /** An entry whose item can be read back: its anchor holds no `"` and its text no `<`. */
  predicate Readable(e: Entry) {
    e.level >= 1 && '"' !in e.anchor && '<' !in e.text
  }

  lemma IndentHasNoR(level: nat)
    requires level >= 1
    ensures 'r' !in IndentText(level)
  {
    var halves := (level - 1) * 3;
    var d := Decimal(halves / 2);
    assert forall i :: 0 <= i < |d| ==> IsDigit(d[i]);
    if halves % 2 == 1 {
      var t := d + ".5";
      forall i | 0 <= i < |t| ensures t[i] != 'r' {
        if i < |d| {
          assert t[i] == d[i];
        }
      }
    }
  }

  lemma ReadItemOf(e: Entry, rest: Str)
    requires Readable(e)
    ensures ReadItem(Item(e) + rest) == Some((e, rest))
  {
    var indent := IndentText(e.level);
    var v := e.text + ItemClose + rest;
    var q := e.anchor + AnchorClose + v;
    var p := indent + IndentClose + q;
    assert Item(e) + rest == ItemOpen + p;
    ExpectOf(ItemOpen, p);
    IndentHasNoR(e.level);
    TakeOf(indent, IndentClose, q);
    LevelRoundTrip(e.level);
    TakeOf(e.anchor, AnchorClose, v);
    TakeOf(e.text, ItemClose, rest);
  }

  lemma {:induction false} ReadItemsOf(es: seq<Entry>)
    requires forall k :: 0 <= k < |es| ==> Readable(es[k])
    ensures forall k :: 0 <= k < |es| ==> es[k].level >= 1
    ensures ReadItems(Items(es)) == Some(es)
    decreases |es|
  {
    if es != [] {
      var tail := es[1..];
      ReadableTail(es);
      ReadItemsOf(tail);
      ReadItemOf(es[0], Items(tail));
      ItemsCons(es);
      ReadItemsStep(Item(es[0]) + Items(tail), es[0], Items(tail), tail);
    }
  }

  lemma ReadableTail(es: seq<Entry>)
    requires es != [] && forall k :: 0 <= k < |es| ==> Readable(es[k])
    ensures forall k :: 0 <= k < |es[1..]| ==> Readable(es[1..][k])
    ensures [es[0]] + es[1..] == es
  {
    var tail := es[1..];
    forall k | 0 <= k < |tail| ensures Readable(tail[k]) {
      assert tail[k] == es[k + 1];
    }
  }

  lemma ItemsCons(es: seq<Entry>)
    requires es != [] && forall k :: 0 <= k < |es| ==> es[k].level >= 1
    ensures Items(es) == Item(es[0]) + Items(es[1..])
  {
  }

  lemma ReadItemsStep(t: Str, e: Entry, rest: Str, es: seq<Entry>)
    requires ReadItem(t) == Some((e, rest)) && ReadItems(rest) == Some(es)
    ensures ReadItems(t) == Some([e] + es)
  {
  }

  /** A non-empty list of readable entries, rendered and read back. */
  lemma TocReadBack(es: seq<Entry>)
    ensures (es != [] && forall k :: 0 <= k < |es| ==> Readable(es[k])) ==>
              ReadToc(NavOpen + Items(es) + NavClose) == Some(es)
  {
    if es != [] && forall k :: 0 <= k < |es| ==> Readable(es[k]) {
      var items := Items(es);
      NavOpenOpensTag();
      ReadWrapped(items);
      ReadItemsOf(es);
    }
  }

  lemma ReadWrapped(items: Str)
    ensures ReadToc(NavOpen + items + NavClose) == if NavOpen + items + NavClose == [] then Some([]) else ReadItems(items)
  {
    var body := items + NavClose;
    Append3(NavOpen, items, NavClose);
    ExpectOf(NavOpen, body);
    assert body[..|items|] == items;
    assert body[|items|..] == NavClose;
  }

  /** An item opens with `<li`, so it never starts with the list's close. */
  lemma ItemNotClose(e: Entry, rest: Str)
    requires e.level >= 1
    ensures !(NavClose <= Item(e) + rest)
  {
    var t := Item(e) + rest;
    assert ItemOpen == "<li" + " style=\"margin-left: ";
    assert t[1] == ItemOpen[1] == 'l';
    assert NavClose[1] == '/';
  }

  lemma ReadUntilStep(t: Str, e: Entry, after: Str, es: seq<Entry>, rest: Str)
    requires !(NavClose <= t) && ReadItem(t) == Some((e, after)) && ReadItemsUntil(after) == Some((es, rest))
    ensures ReadItemsUntil(t) == Some(([e] + es, rest))
  {
  }

  /** Items followed by the close read back as their entries, and the reader stops right after the close. */
  lemma {:induction false} ReadItemsUntilOf(es: seq<Entry>, rest: Str)
    requires forall k :: 0 <= k < |es| ==> Readable(es[k])
    ensures forall k :: 0 <= k < |es| ==> es[k].level >= 1
    ensures ReadItemsUntil(Items(es) + NavClose + rest) == Some((es, rest))
    decreases |es|
  {
    if es == [] {
      assert Items(es) + NavClose + rest == NavClose + rest;
      ExpectOf(NavClose, rest);
    } else {
      var tail := es[1..];
      ReadableTail(es);
      ReadItemsUntilOf(tail, rest);
      var after := Items(tail) + NavClose + rest;
      ItemsCons(es);
      Append3(Item(es[0]), Items(tail), NavClose + rest);
      assert Items(es) + NavClose + rest == Item(es[0]) + (Items(tail) + (NavClose + rest));
      Append3(Items(tail), NavClose, rest);
      ReadItemOf(es[0], after);
      ItemNotClose(es[0], after);
      ReadUntilStep(Item(es[0]) + after, es[0], after, tail, rest);
    }
  }

  /** No heading text holds `<`, so none can be mistaken for markup. */
  predicate PlainTexts(md: Str) {
    forall k :: 0 <= k < |Entries(md)| ==> '<' !in Entries(md)[k].text
  }

  /**
    * A table of contents followed by any text is read back from the front
    * of that text: the entries, and exactly the text after it.
    */
  lemma TocThenRest(md: Str, rest: Str)
    requires Headings(md) != [] && PlainTexts(md)
    ensures ReadTocAt(GenerateToc(md) + rest) == Some((Entries(md), rest))
  {
    var es := Entries(md);
    EntriesReadable(md);
    ReadItemsUntilOf(es, rest);
    assert GenerateToc(md) == NavOpen + Items(es) + NavClose;
    Append3(NavOpen, Items(es), NavClose);
    Append3(NavOpen, Items(es) + NavClose, rest);
    Append3(Items(es), NavClose, rest);
    ExpectOf(NavOpen, Items(es) + NavClose + rest);
  }

  lemma Append3(a: Str, b: Str, c: Str)
    ensures a + b + c == a + (b + c)
  {
  }

  lemma AnchorReadable(text: Str)
    ensures '"' !in Anchor(text)
  {
    var a := Anchor(text);
    assert forall i :: 0 <= i < |a| ==> IsWordChar(a[i]) || a[i] == '-';
  }

  /** Every entry's anchor is free of `"`, and its level is at least 1. */
  lemma EntriesReadable(md: Str)
    ensures forall k :: 0 <= k < |Entries(md)| ==> Entries(md)[k].level >= 1 && '"' !in Entries(md)[k].anchor
    ensures (forall k :: 0 <= k < |Entries(md)| ==> '<' !in Entries(md)[k].text) ==>
              forall k :: 0 <= k < |Entries(md)| ==> Readable(Entries(md)[k])
  {
    var es := Entries(md);
    forall k | 0 <= k < |es|
      ensures es[k].level >= 1 && '"' !in es[k].anchor
    {
      AnchorReadable(es[k].text);
    }
  }

  // ----- the matches are the heading lines -----

  /** The lines of `s`, split at every line terminator, from index `i`. */
  function LinesFrom(s: Str, i: nat): (ls: seq<Str>)
    requires i <= |s|
    ensures |ls| >= 1
    decreases |s| - i
  {
    var e := LineEnd(s, i);
    if e == |s| then [s[i..e]] else [s[i..e]] + LinesFrom(s, e + 1)
  }

  function Lines(s: Str): seq<Str> {
    LinesFrom(s, 0)
  }

  /** A line that reads as a heading: one to three `#`, white space, and at least one more character. */
  predicate IsHeadingLine(line: Str) {
    var n := HashRun(line, 0);
    1 <= n <= 3 && n + 2 <= |line| && IsSpace(line[n])
  }

  function HeadingLines(ls: seq<Str>): (hs: seq<Str>)
    ensures forall k :: 0 <= k < |hs| ==> IsHeadingLine(hs[k])
    decreases |ls|
  {
    if ls == [] then []
    else (if IsHeadingLine(ls[0]) then [ls[0]] else []) + HeadingLines(ls[1..])
  }

  /**
    * A line of one to three `#` and nothing but white space after them,
    * with another line after it: there `\s+` runs on into the next line.
    */
  predicate BlankHeadingAt(s: Str, p: nat)
    requires p <= |s|
  {
    var n := HashRun(s, p);
    && 1 <= n <= 3 && p + n < |s| && IsSpace(s[p + n])
    && LineEnd(s, p) < |s| && SpaceEnd(s, p + n) >= LineEnd(s, p)
  }

  predicate NoBlankHeadings(s: Str) {
    forall p :: 0 <= p <= |s| && AtLineStart(s, p) ==> !BlankHeadingAt(s, p)
  }

  lemma {:induction false} HashRunInLine(s: Str, p: nat, i: nat)
    requires p <= |s| && p <= i <= LineEnd(s, p)
    ensures HashRun(s[p..LineEnd(s, p)], i - p) == HashRun(s, i)
    decreases |s| - i
  {
    var e := LineEnd(s, p);
    if i < e && s[i] == '#' {
      HashRunInLine(s, p, i + 1);
    } else if i < e {
      assert s[p..e][i - p] == s[i];
    } else if i < |s| {
      assert IsLineTerminator(s[i]);
    }
  }

  lemma {:induction false} LineEndSame(s: Str, p: nat, q: nat)
    requires p <= |s| && p <= q <= LineEnd(s, p)
    ensures LineEnd(s, q) == LineEnd(s, p)
    decreases q - p
  {
    if p < q {
      LineEndSame(s, p + 1, q);
    }
  }

  /** Away from blank headings, a match at `p` is exactly a heading line at `p`. */
  lemma MatchAtLine(s: Str, p: nat)
    requires p <= |s| && !BlankHeadingAt(s, p)
    ensures var e := LineEnd(s, p);
            MatchAt(s, p) == if IsHeadingLine(s[p..e]) then Some(e) else None
  {
    var e := LineEnd(s, p);
    var line := s[p..e];
    var n := HashRun(s, p);
    HashRunInLine(s, p, p);
    assert HashRun(line, 0) == n;
    if 1 <= n <= 3 && p + n < |s| && IsSpace(s[p + n]) {
      if p + n < e {
        assert line[n] == s[p + n];
      }
      var r := SpaceEnd(s, p + n);
      if r < e {
        LineEndSame(s, p, r);
      } else {
        assert e == |s| && r == |s|;
        if p + n + 1 < |s| {
          assert !IsLineTerminator(s[|s| - 1]);
        }
      }
    } else if 1 <= n <= 3 && p + n < |s| && p + n < e {
      assert line[n] == s[p + n];
    }
  }

  /** The lines after the one ending at `e`, or none when `e` is the end. */
  function ScanAfter(s: Str, e: nat): seq<Match>
    requires e <= |s|
  {
    if e == |s| then [] else Scan(s, e + 1)
  }

  /** Inside a line the scan finds nothing until the line is over. */
  lemma {:induction false} ScanInsideLine(s: Str, q: nat)
    requires 0 < q <= |s| && !IsLineTerminator(s[q - 1])
    ensures Scan(s, q) == ScanAfter(s, LineEnd(s, q))
    decreases |s| - q
  {
    if q < |s| && !IsLineTerminator(s[q]) {
      ScanInsideLine(s, q + 1);
    }
  }

  /** The scan from a line start: the line itself if it matches, then the later lines. */
  lemma ScanOneLine(s: Str, p: nat)
    requires p <= |s| && AtLineStart(s, p) && !BlankHeadingAt(s, p)
    ensures var e := LineEnd(s, p);
            Texts(Scan(s, p)) == (if IsHeadingLine(s[p..e]) then [s[p..e]] else []) + Texts(ScanAfter(s, e))
  {
    var e := LineEnd(s, p);
    MatchAtLine(s, p);
    if IsHeadingLine(s[p..e]) {
      ScanHeadingLine(s, p);
    } else {
      ScanPlainLine(s, p);
    }
  }

  lemma ScanHeadingLine(s: Str, p: nat)
    requires p <= |s| && AtLineStart(s, p) && MatchAt(s, p) == Some(LineEnd(s, p))
    ensures var e := LineEnd(s, p);
            Texts(Scan(s, p)) == [s[p..e]] + Texts(ScanAfter(s, e))
  {
    var e := LineEnd(s, p);
    var m := Match(p, s[p..e]);
    assert Scan(s, p) == [m] + Scan(s, e);
    assert Scan(s, e) == ScanAfter(s, e) by {
      if e < |s| {
        ScanInsideLine(s, e);
      }
    }
    TextsCons(m, ScanAfter(s, e));
  }

  lemma TextsCons(m: Match, rest: seq<Match>)
    ensures Texts([m] + rest) == [m.text] + Texts(rest)
  {
    assert Texts([m] + rest)[1..] == Texts(rest);
  }

  lemma ScanPlainLine(s: Str, p: nat)
    requires p <= |s| && MatchAt(s, p).None?
    ensures Scan(s, p) == ScanAfter(s, LineEnd(s, p))
  {
    if p < |s| {
      assert Scan(s, p) == Scan(s, p + 1);
      if LineEnd(s, p) > p {
        ScanRestOfLine(s, p);
      }
    }
  }

  /** After the first character of a line, the scan resumes only after the line. */
  lemma ScanRestOfLine(s: Str, p: nat)
    requires p < |s| && p < LineEnd(s, p)
    ensures Scan(s, p + 1) == ScanAfter(s, LineEnd(s, p))
  {
    assert !IsLineTerminator(s[p]);
    ScanInsideLine(s, p + 1);
    LineEndSame(s, p, p + 1);
  }

  lemma HeadingLinesCons(line: Str, rest: seq<Str>)
    ensures HeadingLines([line] + rest) == (if IsHeadingLine(line) then [line] else []) + HeadingLines(rest)
  {
    assert ([line] + rest)[1..] == rest;
  }

  lemma {:induction false} ScanFromLine(s: Str, p: nat)
    requires p <= |s| && AtLineStart(s, p) && NoBlankHeadings(s)
    ensures Texts(Scan(s, p)) == HeadingLines(LinesFrom(s, p))
    decreases |s| - p
  {
    var e := LineEnd(s, p);
    var line := s[p..e];
    var rest := if e == |s| then [] else LinesFrom(s, e + 1);
    assert LinesFrom(s, p) == [line] + rest;
    assert Texts(Scan(s, p)) == (if IsHeadingLine(line) then [line] else []) + Texts(ScanAfter(s, e)) by {
      assert !BlankHeadingAt(s, p);
      ScanOneLine(s, p);
    }
    assert Texts(ScanAfter(s, e)) == HeadingLines(rest) by {
      if e < |s| {
        ScanFromLine(s, e + 1);
      }
    }
    HeadingLinesCons(line, rest);
  }

  /**
    * Unless some line holds only `#` and white space with a line after it,
    * the headings are exactly the heading lines, in order.
    */
  lemma LinesAgree(md: Str)
    requires NoBlankHeadings(md)
    ensures Headings(md) == HeadingLines(Lines(md))
  {
    ScanFromLine(md, 0);
  }

  // ----- anchors -----

  /** Every non-word character replaced by `-`, one for one. */
  function Dashes(s: Str): (r: Str)
    ensures |r| == |s|
    ensures forall k :: 0 <= k < |s| ==> r[k] == if IsWordChar(s[k]) then s[k] else '-'
  {
    seq(|s|, k requires 0 <= k < |s| => if IsWordChar(s[k]) then s[k] else '-')
  }

  /** A `-` that follows another `-` dropped. */
  function Squeeze(t: Str): Str
    decreases |t|
  {
    if |t| <= 1 then t
    else if t[0] == '-' && t[1] == '-' then Squeeze(t[1..])
    else [t[0]] + Squeeze(t[1..])
  }

  /** `n` copies of `c`. */
  function Repeat(c: char, n: nat): (r: Str)
    ensures |r| == n && forall i :: 0 <= i < n ==> r[i] == c
  {
    seq(n, i requires 0 <= i < n => c)
  }

  lemma SqueezeCons(c: char, u: Str)
    requires c != '-'
    ensures Squeeze([c] + u) == [c] + Squeeze(u)
  {
    assert ([c] + u)[1..] == u;
  }

  lemma {:induction false} SqueezeDashRun(k: nat, u: Str)
    requires k >= 1 && (u == [] || u[0] != '-')
    ensures Squeeze(Repeat('-', k) + u) == "-" + Squeeze(u)
    decreases k
  {
    var t := Repeat('-', k) + u;
    if k == 1 {
      assert t == "-" + u;
      if u != [] {
        assert t[1..] == u;
      }
    } else {
      assert t[1..] == Repeat('-', k - 1) + u;
      SqueezeDashRun(k - 1, u);
    }
  }

  lemma DashesOfNonWordRun(s: Str, e: nat)
    requires e <= |s| && forall k :: 0 <= k < e ==> !IsWordChar(s[k])
    ensures Dashes(s) == Repeat('-', e) + Dashes(s[e..])
  {
  }

  /**
    * The slug is the text with each non-word character turned into `-` and
    * each run of `-` so made squeezed to one.
    */
  lemma {:induction false} SlugIsSqueezedDashes(s: Str)
    ensures Slug(s) == Squeeze(Dashes(s))
    decreases |s|
  {
    if s != [] {
      if IsWordChar(s[0]) {
        SlugIsSqueezedDashes(s[1..]);
        assert Dashes(s) == [s[0]] + Dashes(s[1..]);
        SqueezeCons(s[0], Dashes(s[1..]));
      } else {
        var e := NonWordEnd(s, 0);
        SlugIsSqueezedDashes(s[e..]);
        DashesOfNonWordRun(s, e);
        SqueezeDashRun(e, Dashes(s[e..]));
      }
    }
  }

  /** A `#` run that ends before `q` is the same run in the slice `s[p..q]`. */
  lemma {:induction false} HashRunOfPrefix(s: Str, p: nat, q: nat, i: nat)
    requires p <= i <= q <= |s| && i + HashRun(s, i) < q
    ensures HashRun(s[p..q], i - p) == HashRun(s, i)
    decreases q - i
  {
    assert s[p..q][i - p] == s[i];
    if s[i] == '#' {
      HashRunOfPrefix(s, p, q, i + 1);
    }
  }

  /** Reading a heading built from `n` hashes, white space and a text gives them back. */
  lemma HeadingParts(n: nat, gap: Str, text: Str)
    requires n >= 1 && gap != [] && forall i :: 0 <= i < |gap| ==> IsSpace(gap[i])
    requires text == [] || !IsSpace(text[0])
    ensures Level(Repeat('#', n) + gap + text) == n
    ensures HeadingText(Repeat('#', n) + gap + text) == text
  {
    var h := Repeat('#', n) + gap + text;
    assert HashRun(h, n) == 0 by {
      assert h[n] == gap[0];
    }
    HashRunFrom(h, 0, n);
    SpaceEndOver(h, n, n + |gap|);
    assert h[n + |gap|..] == text;
  }

  lemma {:induction false} HashRunFrom(s: Str, i: nat, n: nat)
    requires i <= n <= |s| && HashRun(s, n) == 0
    requires forall k :: i <= k < n ==> s[k] == '#'
    ensures HashRun(s, i) == n - i
    decreases n - i
  {
    if i < n {
      HashRunFrom(s, i + 1, n);
    }
  }

  lemma {:induction false} SpaceEndOver(s: Str, i: nat, e: nat)
    requires i <= e <= |s| && forall k :: i <= k < e ==> IsSpace(s[k])
    requires e == |s| || !IsSpace(s[e])
    ensures SpaceEnd(s, i) == e
    decreases e - i
  {
    if i < e {
      SpaceEndOver(s, i + 1, e);
    }
  }

  lemma MatchLevel(s: Str, m: Match)
    requires ValidMatch(s, m)
    ensures 1 <= Level(m.text) <= 3
  {
    HashRunOfPrefix(s, m.start, m.start + |m.text|, m.start);
  }

  /** Every heading the pattern finds has one to three `#`, so its level is 1, 2 or 3. */
  lemma HeadingLevels(md: Str)
    ensures forall k :: 0 <= k < |Entries(md)| ==> 1 <= Entries(md)[k].level <= 3
  {
    var ms := Scan(md, 0);
    var es := Entries(md);
    forall k | 0 <= k < |es|
      ensures 1 <= es[k].level <= 3
    {
      assert es[k].level == Level(ms[k].text);
      MatchLevel(md, ms[k]);
    }
  }

  /** Reads an indent back: digits, optionally followed by `.5`. */
  function ReadIndent(t: Str): Option<real> {
    if forall i :: 0 <= i < |t| ==> IsDigit(t[i]) then Some(DecimalValue(t) as real)
    else if |t| >= 2 && t[|t| - 2..] == ".5" && forall i :: 0 <= i < |t| - 2 ==> IsDigit(t[i]) then
      Some(DecimalValue(t[..|t| - 2]) as real + 0.5)
    else None
  }

  /** The printed indent reads back as `(level - 1) * 1.5`. */
  lemma IndentRoundTrip(level: nat)
    requires level >= 1
    ensures ReadIndent(IndentText(level)) == Some((level - 1) as real * 1.5)
  {
    var halves := (level - 1) * 3;
    var q := halves / 2;
    DecimalRoundTrip(q);
    var d := Decimal(q);
    if halves % 2 == 0 {
      assert 2 * q == 3 * (level - 1);
    } else {
      assert 2 * q + 1 == 3 * (level - 1);
      var t := d + ".5";
      assert t[|t| - 2] == '.';
      assert t[..|t| - 2] == d;
      assert t[|t| - 2..] == ".5";
    }
  }

  /** The three indents a heading can get. */
  lemma IndentValues()
    ensures IndentText(1) == "0" && IndentText(2) == "1.5" && IndentText(3) == "3"
  {
  }

  // ----- the list -----

  lemma NavOpenOpensTag()
    ensures |NavOpen| > 0 && NavOpen[0] == '<'
  {
    var open := "<nav class=\"toc\">";
    assert NavOpen[0] == open[0];
  }

  /**
    * A line of a lone `#` takes the next line into its heading: the entry
    * reads `## B` at level 1 with anchor `-b`.
    */
  lemma LoneHashTakesNextLine()
    ensures Headings("#\n## B") == ["#\n## B"]
    ensures EntryOf("#\n## B") == Entry(1, "## B", "-b")
  {
    LoneHashMatch();
    LoneHashEntry();
  }

  lemma LoneHashMatch()
    ensures Scan("#\n## B", 0) == [Match(0, "#\n## B")]
  {
    var s := "#\n## B";
    assert HashRun(s, 1) == 0;
    assert HashRun(s, 0) == 1;
    assert SpaceEnd(s, 2) == 2;
    assert SpaceEnd(s, 1) == 2;
    assert LineEnd(s, 6) == 6;
    assert LineEnd(s, 2) == 6 by {
      assert LineEnd(s, 5) == 6;
      assert LineEnd(s, 4) == 6;
      assert LineEnd(s, 3) == 6;
    }
    assert MatchAt(s, 0) == Some(6);
    assert s[0..6] == s;
    assert Scan(s, 6) == [];
  }

  lemma LoneHashEntry()
    ensures EntryOf("#\n## B") == Entry(1, "## B", "-b")
  {
    var s := "#\n## B";
    assert HashRun(s, 1) == 0;
    assert HashRun(s, 0) == 1;
    assert SpaceEnd(s, 2) == 2;
    assert SpaceEnd(s, 1) == 2;
    assert HeadingText(s) == "## B";
    var l := Lower("## B");
    assert l == "## b";
    assert NonWordEnd(l, 0) == 3 by {
      assert NonWordEnd(l, 3) == 3;
    }
    assert l[3..] == "b";
    assert Slug("b") == "b";
  }

  /**
    * Two headings that differ only in case get the same anchor, and both are
    * listed: the entries are not de-duplicated.
    */
  lemma DuplicateAnchors()
    ensures Entries("# A\n# a") == [Entry(1, "A", "a"), Entry(1, "a", "a")]
  {
    var s := "# A\n# a";
    DuplicateHeadings();
    EntryOfOneWord('A', 'a');
    EntryOfOneWord('a', 'a');
    var es := Entries(s);
    assert |es| == 2;
    assert es[0] == Entry(1, ['A'], ['a']);
    assert es[1] == Entry(1, ['a'], ['a']);
  }

  lemma DuplicateHeadings()
    ensures Headings("# A\n# a") == ["# " + ['A'], "# " + ['a']]
  {
    var s := "# A\n# a";
    TwoHeadingsMatch();
    HeadingsOfPair(s, Match(0, s[0..3]), Match(4, s[4..7]));
    HeadingSlices();
  }

  lemma HeadingsOfPair(s: Str, a: Match, b: Match)
    requires Scan(s, 0) == [a, b]
    ensures Headings(s) == [a.text, b.text]
  {
  }

  lemma HeadingSlices()
    ensures "# A\n# a"[0..3] == "# " + ['A'] && "# A\n# a"[4..7] == "# " + ['a']
  {
  }

  lemma TwoHeadingsMatch()
    ensures Scan("# A\n# a", 0) == [Match(0, "# A\n# a"[0..3]), Match(4, "# A\n# a"[4..7])]
  {
    var s := "# A\n# a";
    SecondHeadingMatch();
    assert HashRun(s, 2) == 0;
    assert HashRun(s, 0) == 1;
    assert SpaceEnd(s, 2) == 2;
    assert SpaceEnd(s, 1) == 2;
    assert LineEnd(s, 3) == 3;
    assert LineEnd(s, 2) == 3;
    assert MatchAt(s, 0) == Some(3);
    assert !AtLineStart(s, 3);
  }

  lemma SecondHeadingMatch()
    ensures Scan("# A\n# a", 4) == [Match(4, "# A\n# a"[4..7])]
  {
    var s := "# A\n# a";
    assert HashRun(s, 6) == 0;
    assert HashRun(s, 4) == 1;
    assert SpaceEnd(s, 6) == 6;
    assert SpaceEnd(s, 5) == 6;
    assert LineEnd(s, 7) == 7;
    assert LineEnd(s, 6) == 7;
    assert AtLineStart(s, 4);
    assert MatchAt(s, 4) == Some(7);
    assert Scan(s, 7) == [];
  }

  /** The heading `# c` is an entry at level 1 whose anchor is `c` lower-cased. */
  lemma EntryOfOneWord(c: char, lc: char)
    requires IsWordChar(c) && lc == LowerChar(c)
    ensures EntryOf("# " + [c]) == Entry(1, [c], [lc])
  {
    var h := "# " + [c];
    assert HashRun(h, 1) == 0;
    assert HashRun(h, 0) == 1;
    assert SpaceEnd(h, 2) == 2;
    assert SpaceEnd(h, 1) == 2;
    assert HeadingText(h) == [c];
    assert Lower([c]) == [lc];
    LowerKeepsWordClass(c);
    assert Slug([lc]) == [lc] by {
      assert [lc][1..] == [];
    }
  }
}
