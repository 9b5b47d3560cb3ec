/**
 * The collection entry and the paste parser shared by the gallery and the sorter.
 *
 * A pasted text is split into lines, each line is trimmed, empty lines are dropped, and
 * each remaining line is matched against `^(.*?)\s*-\s*(https?:\/\/\S+)$`. A line that
 * matches becomes an entry whose id is `p-<n>`, `n` being its position among the
 * non-empty lines; a line that does not match is dropped.
 */
module Entries {
  import opened Common
  import opened Text

  /** One curated card: a stable id, a display name and an optional image URL. */
  datatype Entry = Entry(id: string, name: string, imageUrl: Option<string>)

  /** The two capture groups of a matching line, after `trim`. */
  datatype ParsedLine = ParsedLine(name: string, url: string)

  /** The end of the run of whitespace starting at `i`: what a greedy `\s*` consumes. */
  function WsRun(s: string, i: nat): (j: nat)
    requires i <= |s|
    ensures i <= j <= |s|
    ensures AllWhitespace(s[i..j])
    ensures j == |s| || !IsWhitespace(s[j])
    decreases |s| - i
  {
    if i < |s| && IsWhitespace(s[i]) then
      var j := WsRun(s, i + 1);
      assert s[i..j] == [s[i]] + s[i + 1..j];
      j
    else i
  }

  /** A whitespace run that starts at or before a non-whitespace character ends there at the latest. */
  lemma {:induction false} WsRunStopsAt(s: string, i: nat, p: nat)
    requires i <= p < |s| && !IsWhitespace(s[p])
    ensures WsRun(s, i) <= p
    decreases p - i
  {
    if i < p && IsWhitespace(s[i]) {
      WsRunStopsAt(s, i + 1, p);
    }
  }

  /** A run of whitespace that ends at `p`, where the string ends or a non-whitespace character stands, is exactly what WsRun consumes. */
  lemma {:induction false} WsRunExact(s: string, i: nat, p: nat)
    requires i <= p <= |s|
    requires AllWhitespace(s[i..p])
    requires p == |s| || !IsWhitespace(s[p])
    ensures WsRun(s, i) == p
    decreases p - i
  {
    if i < p {
      assert s[i..p][0] == s[i];
      assert s[i + 1..p] == s[i..p][1..];
      WsRunExact(s, i + 1, p);
    }
  }

  /** `https?:\/\/\S+` matching a whole string. */
  predicate IsImageUrl(u: string)
  {
    && NoWhitespace(u)
    && ((|u| > 7 && u[..7] == "http://") || (|u| > 8 && u[..8] == "https://"))
  }

  /**
   * `\s*-\s*(https?:\/\/\S+)$` matching the whole of `r`, yielding the second capture group.
   * Neither `\s*` can give characters back to a successful match (the next token, `-` or `h`,
   * is not whitespace), so each takes its maximal run.
   */
  function MatchTail(r: string): (u: Option<string>)
    ensures u.Some? ==> IsImageUrl(u.value)
  {
    var i := WsRun(r, 0);
    if i < |r| && r[i] == '-' then
      var j := WsRun(r, i + 1);
      if IsImageUrl(r[j..]) then Some(r[j..]) else None
    else None
  }

  /** Every string of the form whitespace, `-`, whitespace, image URL matches, yielding the URL. */
  lemma MatchTailComplete(w1: string, w2: string, u: string)
    requires AllWhitespace(w1) && AllWhitespace(w2) && IsImageUrl(u)
    ensures MatchTail(w1 + "-" + w2 + u) == Some(u)
  {
    var r := w1 + "-" + w2 + u;
    assert r[..|w1|] == w1 && r[|w1|] == '-';
    WsRunExact(r, 0, |w1|);
    var j := |w1| + 1 + |w2|;
    assert r[|w1| + 1..j] == w2;
    assert r[j..] == u;
    assert r[j] == u[0] == 'h';
    WsRunExact(r, |w1| + 1, j);
  }

  /** Every match has the form whitespace, `-`, whitespace, then the URL it yields. */
  lemma MatchTailSound(r: string)
    requires MatchTail(r).Some?
    ensures exists i, j ::
      && 0 <= i < j <= |r| && r[i] == '-' && AllWhitespace(r[..i])
      && AllWhitespace(r[i + 1..j]) && r[j..] == MatchTail(r).value
  {
    var i := WsRun(r, 0);
    var j := WsRun(r, i + 1);
    assert r[..i] == r[0..i];
    assert 0 <= i < j <= |r| && r[i] == '-' && AllWhitespace(r[..i])
      && AllWhitespace(r[i + 1..j]) && r[j..] == MatchTail(r).value;
  }

  /**
   * The lazy first group `(.*?)`: group 1 is `line[..k]` for the least `k` from which the rest
   * matches, and it may not extend over a line terminator (which `.` does not match).
   */
  function LazySplit(line: string, k: nat): (r: Option<nat>)
    requires k <= |line|
    ensures r.Some? ==> k <= r.value <= |line| && MatchTail(line[r.value..]).Some?
    decreases |line| - k
  {
    if MatchTail(line[k..]).Some? then Some(k)
    else if k < |line| && !IsLineTerminator(line[k]) then LazySplit(line, k + 1)
    else None
  }

  /** No line terminator in `line[k..j]`: group 1 may grow from `k` to `j`. */
  predicate DotsOnly(line: string, k: nat, j: nat)
    requires k <= j <= |line|
  {
    forall t :: k <= t < j ==> !IsLineTerminator(line[t])
  }

  /**
   * The split LazySplit picks is the least one the pattern allows: every shorter group 1 fails,
   * and when it fails, no split point reachable without crossing a line terminator matches.
   */
  lemma {:induction false} LazySplitIsLeast(line: string, k: nat)
    requires k <= |line|
    ensures var r := LazySplit(line, k);
      && (r.Some? ==> DotsOnly(line, k, r.value) && forall j :: k <= j < r.value ==> MatchTail(line[j..]).None?)
      && (r.None? ==> forall j :: k <= j <= |line| && DotsOnly(line, k, j) ==> MatchTail(line[j..]).None?)
    decreases |line| - k
  {
    var r := LazySplit(line, k);
    if MatchTail(line[k..]).Some? {
      assert r == Some(k);
    } else if k < |line| && !IsLineTerminator(line[k]) {
      LazySplitIsLeast(line, k + 1);
      assert r == LazySplit(line, k + 1);
      if r.Some? {
        assert DotsOnly(line, k + 1, r.value);
        forall t | k <= t < r.value ensures !IsLineTerminator(line[t]) {
          if t > k { assert k + 1 <= t < r.value; }
        }
        forall j | k <= j < r.value ensures MatchTail(line[j..]).None? {
          if j > k { assert k + 1 <= j < r.value; }
        }
      } else {
        forall j | k <= j <= |line| && DotsOnly(line, k, j) ensures MatchTail(line[j..]).None? {
          if j > k { assert DotsOnly(line, k + 1, j); }
        }
      }
    } else {
      assert r == None;
      assert forall j :: k <= j <= |line| && DotsOnly(line, k, j) ==> j == k;
    }
  }

  /** The converse of LazySplitIsLeast: the least split point the pattern allows is the one LazySplit picks. */
  lemma {:induction false} LazySplitAt(line: string, k: nat, j: nat)
    requires k <= j <= |line| && DotsOnly(line, k, j)
    requires forall t :: k <= t < j ==> MatchTail(line[t..]).None?
    requires MatchTail(line[j..]).Some?
    ensures LazySplit(line, k) == Some(j)
    decreases j - k
  {
    if k < j {
      assert MatchTail(line[k..]).None? && !IsLineTerminator(line[k]);
      assert DotsOnly(line, k + 1, j);
      LazySplitAt(line, k + 1, j);
    }
  }

  /** A string that starts with a character other than whitespace and `-` never matches the tail. */
  lemma MatchTailNeedsDash(r: string)
    requires r != [] && !IsWhitespace(r[0]) && r[0] != '-'
    ensures MatchTail(r) == None
  {
    assert WsRun(r, 0) == 0;
  }

  /** Neither `\s*` needs whitespace: a name without spaces or dashes glued to `-` and a URL parses. */
  lemma ParseLineGlued(name: string, u: string)
    requires name != [] && IsImageUrl(u)
    requires forall t :: 0 <= t < |name| ==> !IsWhitespace(name[t]) && name[t] != '-'
    ensures ParseLine(name + "-" + u) == Some(ParsedLine(name, u))
  {
    var line := name + "-" + u;
    GluedSplit(name, u);
    assert line[..|name|] == name && line[|name|..] == "" + "-" + "" + u;
    MatchTailComplete("", "", u);
    assert IsTrimmed(name) && IsTrimmed(u);
  }

  /** The lazy group of a glued line ends just before the dash. */
  lemma GluedSplit(name: string, u: string)
    requires IsImageUrl(u)
    requires forall t :: 0 <= t < |name| ==> !IsWhitespace(name[t]) && name[t] != '-'
    ensures LazySplit(name + "-" + u, 0) == Some(|name|)
  {
    var line := name + "-" + u;
    var k := |name|;
    forall t | 0 <= t < k ensures MatchTail(line[t..]).None? && !IsLineTerminator(line[t]) {
      assert line[t..][0] == line[t] == name[t];
      MatchTailNeedsDash(line[t..]);
    }
    assert line[k..] == "" + "-" + "" + u;
    MatchTailComplete("", "", u);
    LazySplitAt(line, 0, k);
  }

  /** One trimmed line: the name and the URL it yields, or `None` when the line is dropped. */
  function ParseLine(line: string): (p: Option<ParsedLine>)
    ensures p.Some? ==> p.value.name != [] && IsTrimmed(p.value.name) && IsImageUrl(p.value.url)
  {
    match LazySplit(line, 0)
    case None => None
    case Some(k) =>
      var name := Trim(line[..k]);
      var url := Trim(MatchTail(line[k..]).value);
      if name == [] || url == [] then None else Some(ParsedLine(name, url))
  }

  /** The id given to the entry parsed from the `index`-th non-empty line. */
  function Id(index: nat): string
  {
    IdPrefix + NatToString(index)
  }

  const IdPrefix: string := "p-"

  lemma IdInjective(a: nat, b: nat)
    requires Id(a) == Id(b)
    ensures a == b
  {
    assert Id(a)[|IdPrefix|..] == NatToString(a) && Id(b)[|IdPrefix|..] == NatToString(b);
    NatToStringInjective(a, b);
  }

  /** `.map((line) => line.trim()).filter(Boolean)`. */
  function TrimmedNonEmpty(lines: seq<string>): (r: seq<string>)
    ensures |r| <= |lines|
    ensures forall k :: 0 <= k < |r| ==> r[k] != [] && IsTrimmed(r[k])
  {
    if lines == [] then []
    else
      var t := Trim(lines[0]);
      (if t == [] then [] else [t]) + TrimmedNonEmpty(lines[1..])
  }

  /** A single line contributes its trimmed text, or nothing when it is blank. */
  lemma TrimmedNonEmptyOne(l: string)
    ensures TrimmedNonEmpty([l]) == if AllWhitespace(l) then [] else [Trim(l)]
  {
    assert [l][1..] == [];
  }

  /** Trimming and dropping blank lines works line by line: it distributes over concatenation. */
  lemma {:induction false} TrimmedNonEmptyAppend(a: seq<string>, b: seq<string>)
    ensures TrimmedNonEmpty(a + b) == TrimmedNonEmpty(a) + TrimmedNonEmpty(b)
  {
    if a != [] {
      assert (a + b)[0] == a[0];
      assert (a + b)[1..] == a[1..] + b;
      TrimmedNonEmptyAppend(a[1..], b);
    } else {
      assert a + b == b;
    }
  }

  ghost predicate WellFormed(e: Entry)
  {
    e.name != [] && IsTrimmed(e.name) && e.imageUrl.Some? && IsImageUrl(e.imageUrl.value)
  }

  /** `.map((line) => line.match(...) ...)`: the parse of each line, before the numbering. */
  function ParseLines(lines: seq<string>): (parsed: seq<Option<ParsedLine>>)
    ensures |parsed| == |lines|
    ensures forall k :: 0 <= k < |lines| ==> parsed[k] == ParseLine(lines[k])
  {
    if lines == [] then [] else [ParseLine(lines[0])] + ParseLines(lines[1..])
  }

  /** The positions (counted from `index`) of the lines that matched. */
  ghost function MatchedNumbers(parsed: seq<Option<ParsedLine>>, index: nat): (m: seq<nat>)
    ensures |m| <= |parsed|
    ensures forall k :: 0 <= k < |m| ==> index <= m[k] < index + |parsed|
    ensures forall k, l :: 0 <= k < l < |m| ==> m[k] < m[l]
  {
    if parsed == [] then []
    else (if parsed[0].Some? then [index] else []) + MatchedNumbers(parsed[1..], index + 1)
  }

  /** Every line that matched is numbered. */
  lemma {:induction false} MatchedNumbersComplete(parsed: seq<Option<ParsedLine>>, index: nat, i: nat)
    requires i < |parsed| && parsed[i].Some?
    ensures index + i in MatchedNumbers(parsed, index)
    decreases i
  {
    var head := if parsed[0].Some? then [index] else [];
    var rest := MatchedNumbers(parsed[1..], index + 1);
    assert MatchedNumbers(parsed, index) == head + rest;
    if i > 0 {
      assert parsed[1..][i - 1] == parsed[i];
      MatchedNumbersComplete(parsed[1..], index + 1, i - 1);
    }
  }

  /** Every numbered position is that of a line that matched. */
  lemma {:induction false} MatchedNumbersSound(parsed: seq<Option<ParsedLine>>, index: nat, k: nat)
    requires k < |MatchedNumbers(parsed, index)|
    ensures parsed[MatchedNumbers(parsed, index)[k] - index].Some?
    decreases |parsed|
  {
    var head := if parsed[0].Some? then [index] else [];
    var rest := MatchedNumbers(parsed[1..], index + 1);
    var m := MatchedNumbers(parsed, index);
    assert m == head + rest;
    if k >= |head| {
      assert m[k] == rest[k - |head|];
      MatchedNumbersSound(parsed[1..], index + 1, k - |head|);
      assert parsed[1..][rest[k - |head|] - (index + 1)] == parsed[m[k] - index];
    }
  }

  /** The ids and the drop of unmatched lines: `(line, index) => ({ id: `p-${index}`, ... })` then `.filter(...)`. */
  function NumberLines(parsed: seq<Option<ParsedLine>>, index: nat): (entries: seq<Entry>)
    ensures |entries| <= |parsed|
  {
    if parsed == [] then []
    else
      var head := match parsed[0]
        case None => []
        case Some(p) => [Entry(Id(index), p.name, Some(p.url))];
      head + NumberLines(parsed[1..], index + 1)
  }

  /** What ties the `k`-th entry to the line numbered `m[k]`. */
  ghost predicate EntryFromLine(parsed: seq<Option<ParsedLine>>, index: nat, e: Entry, n: nat)
  {
    && e.id == Id(n)
    && e.imageUrl.Some?
    && index <= n < index + |parsed|
    && parsed[n - index] == Some(ParsedLine(e.name, e.imageUrl.value))
  }

  /** The `k`-th entry comes from the line numbered `MatchedNumbers(parsed, index)[k]` and carries that number's id. */
  lemma {:induction false} NumberLinesIds(parsed: seq<Option<ParsedLine>>, index: nat)
    ensures var entries, m := NumberLines(parsed, index), MatchedNumbers(parsed, index);
      && |entries| == |m|
      && forall k :: 0 <= k < |m| ==> EntryFromLine(parsed, index, entries[k], m[k])
  {
    if parsed != [] {
      NumberLinesIds(parsed[1..], index + 1);
      var entries, m := NumberLines(parsed, index), MatchedNumbers(parsed, index);
      var restE, restM := NumberLines(parsed[1..], index + 1), MatchedNumbers(parsed[1..], index + 1);
      forall k | 0 <= k < |restM| ensures EntryFromLine(parsed, index, restE[k], restM[k]) {
        assert parsed[restM[k] - index] == parsed[1..][restM[k] - (index + 1)];
      }
      match parsed[0] {
        case None =>
          assert entries == restE && m == restM;
        case Some(p) =>
          assert entries == [Entry(Id(index), p.name, Some(p.url))] + restE;
          assert m == [index] + restM;
          assert EntryFromLine(parsed, index, entries[0], m[0]);
      }
    }
  }

  lemma NumberLinesDistinctIds(parsed: seq<Option<ParsedLine>>, index: nat)
    ensures forall k, l :: 0 <= k < l < |NumberLines(parsed, index)| ==> NumberLines(parsed, index)[k].id != NumberLines(parsed, index)[l].id
  {
    var entries, m := NumberLines(parsed, index), MatchedNumbers(parsed, index);
    NumberLinesIds(parsed, index);
    forall k, l | 0 <= k < l < |entries| ensures entries[k].id != entries[l].id {
      if entries[k].id == entries[l].id { IdInjective(m[k], m[l]); }
    }
  }

  /** The collection a pasted text yields. */
  function Parse(text: string): (entries: seq<Entry>)
  {
    if Trim(text) == [] then [] else NumberLines(ParseLines(TrimmedNonEmpty(SplitLines(text))), 0)
  }

  /** Whitespace-only (or empty) input parses to nothing. */
  lemma ParseBlank(text: string)
    requires AllWhitespace(text)
    ensures Parse(text) == []
  {
  }

  /** Every parsed entry has a non-empty trimmed name and an http(s) URL, and no two share an id. */
  lemma ParseWellFormed(text: string)
    ensures forall k :: 0 <= k < |Parse(text)| ==> WellFormed(Parse(text)[k])
    ensures forall k, l :: 0 <= k < l < |Parse(text)| ==> Parse(text)[k].id != Parse(text)[l].id
  {
    if Trim(text) != [] {
      var parsed := ParseLines(TrimmedNonEmpty(SplitLines(text)));
      NumberLinesIds(parsed, 0);
      NumberLinesDistinctIds(parsed, 0);
      var entries, m := NumberLines(parsed, 0), MatchedNumbers(parsed, 0);
      forall k | 0 <= k < |entries| ensures WellFormed(entries[k]) {
        assert parsed[m[k]].Some?;
      }
    }
  }

  // ----- the paste format, and parsing it back -----

  /** A card that can be written as a `Name - URL` line and read back. */
  predicate Formattable(p: ParsedLine)
  {
    && p.name != [] && IsTrimmed(p.name)
    && (forall i :: 0 <= i < |p.name| ==> !IsLineTerminator(p.name[i]))
    && IsImageUrl(p.url)
  }

  function FormatLine(p: ParsedLine): string
  {
    p.name + " - " + p.url
  }

  function FormatLines(items: seq<ParsedLine>): (lines: seq<string>)
    ensures |lines| == |items|
    ensures forall k :: 0 <= k < |items| ==> lines[k] == FormatLine(items[k])
  {
    if items == [] then [] else [FormatLine(items[0])] + FormatLines(items[1..])
  }

  /** The text a user pastes for these cards: one `Name - URL` line each. */
  function Format(items: seq<ParsedLine>): string
  {
    Join(FormatLines(items), "\n")
  }

  /** The entries that `Format(items)` should parse to, numbered from `index`. */
  function Numbered(items: seq<ParsedLine>, index: nat): (entries: seq<Entry>)
    ensures |entries| == |items|
  {
    if items == [] then []
    else [Entry(Id(index), items[0].name, Some(items[0].url))] + Numbered(items[1..], index + 1)
  }

  /**
   * A string with a non-whitespace character at `m - 1`, then ` - ` and further on, cannot match
   * the tail pattern: the URL would have to begin after the blank at `m + 2`, and the text before
   * the dash would have to be blank.
   */
  lemma NoMatchBeforeSeparator(r: string, m: nat)
    requires 1 <= m && m + 2 < |r|
    requires !IsWhitespace(r[m - 1]) && r[m] == ' ' && r[m + 1] == '-' && r[m + 2] == ' '
    ensures MatchTail(r).None?
  {
    var i := WsRun(r, 0);
    WsRunStopsAt(r, 0, m - 1);
    if r[i] == '-' {
      var j := WsRun(r, i + 1);
      if i + 1 <= m - 1 { WsRunStopsAt(r, i + 1, m - 1); } else { WsRunStopsAt(r, i + 1, m + 1); }
      assert j <= m + 1;
      assert r[j..][m + 2 - j] == ' ';
      assert !NoWhitespace(r[j..]) && !IsImageUrl(r[j..]);
    }
  }

  /** No split point inside the name: the suffix starting there does not match the tail pattern. */
  lemma NoMatchInsideName(p: ParsedLine, k: nat)
    requires Formattable(p) && k < |p.name|
    ensures MatchTail(FormatLine(p)[k..]).None?
  {
    var line := FormatLine(p);
    var m := |p.name| - k;
    assert line[k..][m - 1] == p.name[|p.name| - 1];
    assert line[k..][m] == ' ' && line[k..][m + 1] == '-' && line[k..][m + 2] == ' ';
    NoMatchBeforeSeparator(line[k..], m);
  }

  /** Right after the name, the rest of a formatted line matches with the URL as group 2. */
  lemma TailOfFormatted(p: ParsedLine)
    requires Formattable(p)
    ensures MatchTail(FormatLine(p)[|p.name|..]) == Some(p.url)
  {
    var r := FormatLine(p)[|p.name|..];
    assert r == " - " + p.url;
    assert r[0] == ' ' && r[1] == '-' && r[2] == ' ' && r[3] == p.url[0];
    assert !IsWhitespace(p.url[0]);
    assert WsRun(r, 1) == 1;
    assert WsRun(r, 0) == 1;
    assert WsRun(r, 3) == 3;
    assert WsRun(r, 2) == 3;
    assert r[3..] == p.url;
  }

  lemma {:induction false} LazySplitFindsName(p: ParsedLine, k: nat)
    requires Formattable(p) && k <= |p.name|
    ensures LazySplit(FormatLine(p), k) == Some(|p.name|)
    decreases |p.name| - k
  {
    var line := FormatLine(p);
    if k == |p.name| {
      TailOfFormatted(p);
    } else {
      NoMatchInsideName(p, k);
      assert line[k] == p.name[k];
      LazySplitFindsName(p, k + 1);
    }
  }

  /** A formatted line parses back to its name and URL. */
  lemma ParseLineFormatted(p: ParsedLine)
    requires Formattable(p)
    ensures ParseLine(FormatLine(p)) == Some(p)
  {
    var line := FormatLine(p);
    LazySplitFindsName(p, 0);
    assert line[..|p.name|] == p.name;
    TailOfFormatted(p);
  }

  lemma {:induction false} NumberFormattedLines(items: seq<ParsedLine>, index: nat)
    requires forall k :: 0 <= k < |items| ==> Formattable(items[k])
    ensures NumberLines(ParseLines(FormatLines(items)), index) == Numbered(items, index)
  {
    if items != [] {
      ParseLineFormatted(items[0]);
      assert FormatLines(items)[1..] == FormatLines(items[1..]);
      assert ParseLines(FormatLines(items))[1..] == ParseLines(FormatLines(items[1..]));
      NumberFormattedLines(items[1..], index + 1);
    }
  }

  lemma {:induction false} TrimmedNonEmptyKeeps(lines: seq<string>)
    requires forall k :: 0 <= k < |lines| ==> lines[k] != [] && IsTrimmed(lines[k])
    ensures TrimmedNonEmpty(lines) == lines
  {
    if lines != [] {
      TrimmedNonEmptyKeeps(lines[1..]);
    }
  }

  /** A formatted line is one trimmed, non-empty line that `split(/\r?\n/)` keeps whole. */
  lemma FormattedLineShape(p: ParsedLine)
    requires Formattable(p)
    ensures var line := FormatLine(p);
      '\n' !in line && DropCarriageReturn(line) == line && line != [] && IsTrimmed(line)
  {
    var line := FormatLine(p);
    assert line[|line| - 1] == p.url[|p.url| - 1];
    assert !IsWhitespace(line[|line| - 1]);
    forall i | 0 <= i < |line| ensures line[i] != '\n' {
      if i < |p.name| { assert line[i] == p.name[i]; }
      else if i >= |p.name| + 3 { assert line[i] == p.url[i - |p.name| - 3]; }
    }
  }

  lemma JoinStartsWithFirst(parts: seq<string>, sep: string)
    requires |parts| > 0 && |parts[0]| > 0
    ensures |Join(parts, sep)| > 0 && Join(parts, sep)[0] == parts[0][0]
  {
  }

  /** Lines that `split(/\r?\n/)` and the trim-and-drop-empty step give back unchanged. */
  predicate CleanLines(lines: seq<string>)
  {
    && (forall k :: 0 <= k < |lines| ==> '\n' !in lines[k] && DropCarriageReturn(lines[k]) == lines[k])
    && (forall k :: 0 <= k < |lines| ==> lines[k] != [] && IsTrimmed(lines[k]))
  }

  lemma FormattedLinesClean(items: seq<ParsedLine>)
    requires forall k :: 0 <= k < |items| ==> Formattable(items[k])
    ensures CleanLines(FormatLines(items))
  {
    var lines := FormatLines(items);
    forall k | 0 <= k < |lines|
      ensures '\n' !in lines[k] && DropCarriageReturn(lines[k]) == lines[k] && lines[k] != [] && IsTrimmed(lines[k])
    {
      FormattedLineShape(items[k]);
    }
  }

  /** Parsing the pasted `Name - URL` lines of well-formed cards yields exactly those cards, numbered `p-0`, `p-1`, ... */
  lemma ParseFormatted(items: seq<ParsedLine>)
    requires forall k :: 0 <= k < |items| ==> Formattable(items[k])
    ensures Parse(Format(items)) == Numbered(items, 0)
  {
    if items != [] {
      var lines := FormatLines(items);
      FormattedLinesClean(items);
      ParseOfCleanLines(lines);
      NumberFormattedLines(items, 0);
      assert Format(items) == Join(lines, "\n");
    }
  }

  /** Text made of trimmed, non-empty lines without breaks parses line by line. */
  lemma ParseOfCleanLines(lines: seq<string>)
    requires |lines| > 0 && CleanLines(lines)
    ensures Parse(Join(lines, "\n")) == NumberLines(ParseLines(lines), 0)
  {
    var text := Join(lines, "\n");
    SplitJoinedLines(lines);
    TrimmedNonEmptyKeeps(lines);
    JoinStartsWithFirst(lines, "\n");
    assert !IsWhitespace(text[0]);
    assert Trim(text) != [];
  }

  /** A line without a dash never matches: the pattern needs one between the name and the URL. */
  lemma ParseLineNeedsDash(line: string)
    requires '-' !in line
    ensures ParseLine(line) == None
  {
    forall j | 0 <= j <= |line| ensures MatchTail(line[j..]).None? {
      var t := line[j..];
      var i := WsRun(t, 0);
      if i < |t| { assert t[i] == line[j + i]; }
    }
  }

  /** The three-line paste `Saber - https://mudae.net/x.png`, `invalidline`, `Samira - https://mudae.net/y.png`. */
  const ExampleText: string := "Saber - https://mudae.net/x.png" + "\n" + "invalidline" + "\n" + "Samira - https://mudae.net/y.png"
  const Saber: ParsedLine := ParsedLine("Saber", "https://mudae.net/x.png")
  const Samira: ParsedLine := ParsedLine("Samira", "https://mudae.net/y.png")

  lemma SaberLine()
    ensures FormatLine(Saber) == "Saber - https://mudae.net/x.png"
  {
  }

  lemma SamiraLine()
    ensures FormatLine(Samira) == "Samira - https://mudae.net/y.png"
  {
  }

  lemma ExampleTextLines()
    ensures ExampleText == Join(ExampleLines, "\n")
  {
    var lines := ExampleLines;
    assert lines[1..][1..] == [FormatLine(Samira)];
    assert Join(lines[1..][1..], "\n") == FormatLine(Samira);
    assert Join(lines[1..], "\n") == "invalidline" + "\n" + FormatLine(Samira);
    SaberLine();
    SamiraLine();
  }

  /** Printable ASCII other than the space: never whitespace and never a line terminator. */
  predicate Graphic(s: string)
  {
    forall i :: 0 <= i < |s| ==> '!' <= s[i] <= '~'
  }

  lemma GraphicFormattable(p: ParsedLine)
    requires p.name != [] && Graphic(p.name) && Graphic(p.url)
    requires |p.url| > 8 && p.url[..8] == "https://"
    ensures Formattable(p)
  {
  }

  lemma SaberFormattable()
    ensures Formattable(Saber)
  {
    assert Graphic(Saber.name);
    assert Graphic(Saber.url);
    assert Saber.url[..8] == "https://";
    GraphicFormattable(Saber);
  }

  lemma SamiraFormattable()
    ensures Formattable(Samira)
  {
    assert Graphic(Samira.name);
    assert Graphic(Samira.url);
    assert Samira.url[..8] == "https://";
    GraphicFormattable(Samira);
  }

  lemma ExampleCardsFormattable()
    ensures Formattable(Saber) && Formattable(Samira)
  {
    SaberFormattable();
    SamiraFormattable();
  }

  const ExampleLines: seq<string> := [FormatLine(Saber), "invalidline", FormatLine(Samira)]

  lemma ExampleLinesClean()
    ensures CleanLines(ExampleLines)
  {
    ExampleCardsFormattable();
    FormattedLineShape(Saber);
    FormattedLineShape(Samira);
    assert "invalidline"[|"invalidline"| - 1] == 'e';
    assert !IsWhitespace("invalidline"[0]);
    assert forall i :: 0 <= i < |"invalidline"| ==> "invalidline"[i] != '\n';
  }

  lemma ParseThreeLines(a: string, b: string, c: string)
    ensures ParseLines([a, b, c]) == [ParseLine(a), ParseLine(b), ParseLine(c)]
  {
    var parsed := ParseLines([a, b, c]);
    assert parsed[0] == ParseLine(a) && parsed[1] == ParseLine(b) && parsed[2] == ParseLine(c);
  }

  lemma InvalidLineDropped()
    ensures ParseLine("invalidline") == None
  {
    assert forall i :: 0 <= i < |"invalidline"| ==> "invalidline"[i] != '-';
    ParseLineNeedsDash("invalidline");
  }

  lemma ExampleCardLinesParse()
    ensures ParseLine(FormatLine(Saber)) == Some(Saber) && ParseLine(FormatLine(Samira)) == Some(Samira)
  {
    ExampleCardsFormattable();
    ParseLineFormatted(Saber);
    ParseLineFormatted(Samira);
  }

  lemma ExampleParsedLines()
    ensures ParseLines(ExampleLines) == [Some(Saber), None, Some(Samira)]
  {
    ParseThreeLines(FormatLine(Saber), "invalidline", FormatLine(Samira));
    InvalidLineDropped();
    ExampleCardLinesParse();
  }

  lemma ExampleNumbering()
    ensures NumberLines([Some(Saber), None, Some(Samira)], 0)
         == [ Entry("p-0", "Saber", Some("https://mudae.net/x.png")),
              Entry("p-2", "Samira", Some("https://mudae.net/y.png")) ]
  {
    var parsed := [Some(Saber), None, Some(Samira)];
    assert parsed[1..][1..] == [Some(Samira)];
    assert NumberLines(parsed[1..][1..], 2) == [Entry(Id(2), "Samira", Some(Samira.url))];
    assert NumberLines(parsed[1..], 1) == NumberLines(parsed[1..][1..], 2);
    assert NumberLines(parsed, 0) == [Entry(Id(0), "Saber", Some(Saber.url))] + NumberLines(parsed[1..], 1);
    IdExamples();
  }

  /** A three-line paste: the middle line is dropped, the ids keep the line positions. */
  lemma ParseExample()
    ensures Parse(ExampleText)
         == [ Entry("p-0", "Saber", Some("https://mudae.net/x.png")),
              Entry("p-2", "Samira", Some("https://mudae.net/y.png")) ]
  {
    ExampleTextLines();
    ExampleLinesClean();
    ParseOfCleanLines(ExampleLines);
    ExampleParsedLines();
    ExampleNumbering();
  }

  lemma IdExamples()
    ensures Id(0) == "p-0" && Id(2) == "p-2"
  {
  }
}
