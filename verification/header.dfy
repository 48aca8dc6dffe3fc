/**
 The header a run looks for: the timeframe computed from the first and the
 current year, the template with its `{TIMEFRAME}` placeholder replaced, and
 the two fragments of the template around the placeholder.
 */
module Header {
  import opened Wrappers
  import opened Strings
  import opened Decimal
  import opened Config

  /** The placeholder in the header template. */
  const Token: string := "{TIMEFRAME}"

  /** The years a timeframe stands for: one year, or a range of two. */
  datatype Span = Single(year: int) | Range(first: int, last: int)

  /**
   The span a run renders: a range from the first year to the current year
   when the first year is set and differs from the current year, otherwise
   the current year alone.
   */
  function SpanOf(firstYear: Option<int>, currentYear: int): (s: Span)
    ensures s.Range? <==> FirstYearSet(firstYear) && firstYear.value != currentYear
    ensures s.Range? ==> s.first == firstYear.value && s.last == currentYear
    ensures s.Single? ==> s.year == currentYear
  {
    if FirstYearSet(firstYear) && firstYear.value != currentYear then Range(firstYear.value, currentYear)
    else Single(currentYear)
  }

  /**
   Once the options validate, the span is the current year alone, or a range
   whose first year lies after 1900 and strictly before the current year.
   */
  lemma ValidatedSpan(o: Options, currentYear: int)
    requires Validate(o, currentYear).Success?
    ensures match SpanOf(o.firstYear, currentYear)
      case Single(y) => y == currentYear
      case Range(f, l) => 1900 < f < l && l == currentYear
  {
    if FirstYearSet(o.firstYear) {
      ValidFirstYearInRange(o, currentYear);
    }
  }

  function RenderSpan(s: Span): string {
    match s
    case Single(y) => IntToString(y)
    case Range(f, l) => IntToString(f) + "-" + IntToString(l)
  }

  /**
   Reads a timeframe back: the first `-` after the first character separates
   the two years of a range (a `-` in front is a minus sign).
   */
  function ParseSpan(t: string): Option<Span> {
    if |t| == 0 then None
    else
      var k := IndexOf(t[1..], "-");
      if k < 0 then
        match ParseInt(t)
        case Some(y) => Some(Single(y))
        case None => None
      else
        match (ParseInt(t[..k + 1]), ParseInt(t[k + 2..]))
        case (Some(f), Some(l)) => Some(Range(f, l))
        case _ => None
  }

  /** No `-` occurs in a string whose characters are all digits. */
  lemma NoDashInDigits(s: string)
    requires AllDigits(s)
    ensures !Occurs(s, "-")
  {
    forall j
      ensures !IsAt(s, "-", j)
    {
      if 0 <= j < |s| {
        assert s[j..j + 1][0] == s[j];
      }
    }
  }

  /** Every rendered span reads back as itself. */
  lemma {:induction false} ParseRenderSpan(s: Span)
    ensures ParseSpan(RenderSpan(s)) == Some(s)
  {
    match s
    case Single(y) =>
      var t := IntToString(y);
      NoDashInDigits(t[1..]);
      ParseIntToString(y);
    case Range(f, l) =>
      var a := IntToString(f);
      var b := IntToString(l);
      var t := a + "-" + b;
      assert t[1..] == a[1..] + "-" + b;
      IsAtSplice(a[1..], "-", b);
      forall j | 0 <= j < |a| - 1
        ensures !IsAt(t[1..], "-", j)
      {
        assert t[1..][j] == a[j + 1];
      }
      IndexOfIsFirst(t[1..], "-", |a| - 1);
      assert t[..|a|] == a;
      assert t[|a| + 1..] == b;
      ParseIntToString(f);
      ParseIntToString(l);
  }

  /** One canonical integer, or two joined by a `-`. */
  ghost predicate CanonicalSpanText(t: string) {
    || Canonical(t)
    || exists k :: 0 < k < |t| && t[k] == '-' && Canonical(t[..k]) && Canonical(t[k + 1..])
  }

  /**
   A canonical timeframe text is the rendering of the span it parses to, so
   two canonical texts that parse to the same span are the same text.
   */
  lemma RenderParseSpan(t: string)
    requires CanonicalSpanText(t)
    ensures ParseSpan(t).Some? && RenderSpan(ParseSpan(t).value) == t
  {
    if Canonical(t) {
      CanonicalRoundTrip(t);
      var y := ParseInt(t).value;
      ParseRenderSpan(Single(y));
    } else {
      var k :| 0 < k < |t| && t[k] == '-' && Canonical(t[..k]) && Canonical(t[k + 1..]);
      CanonicalRoundTrip(t[..k]);
      CanonicalRoundTrip(t[k + 1..]);
      var span := Range(ParseInt(t[..k]).value, ParseInt(t[k + 1..]).value);
      assert t == t[..k] + "-" + t[k + 1..];
      ParseRenderSpan(span);
    }
  }

  lemma ParseSpanInjective(t1: string, t2: string)
    requires CanonicalSpanText(t1) && CanonicalSpanText(t2)
    requires ParseSpan(t1) == ParseSpan(t2)
    ensures t1 == t2
  {
    RenderParseSpan(t1);
    RenderParseSpan(t2);
  }

  /**
   The timeframe string of a run (`firstYear-currentYear` or `currentYear`):
   it is in canonical form and encodes exactly the span `SpanOf` describes,
   which makes it the one canonical text for that span.
   */
  function Timeframe(firstYear: Option<int>, currentYear: int): (t: string)
    ensures CanonicalSpanText(t)
    ensures ParseSpan(t) == Some(SpanOf(firstYear, currentYear))
  {
    var span := SpanOf(firstYear, currentYear);
    ParseRenderSpan(span);
    assert span.Range? ==>
      var a := IntToString(span.first);
      RenderSpan(span)[..|a|] == a && RenderSpan(span)[|a| + 1..] == IntToString(span.last);
    RenderSpan(span)
  }

  /** `pat` occurs in `s` exactly once. */
  ghost predicate OccursOnce(s: string, pat: string) {
    Occurs(s, pat) && forall i, j :: IsAt(s, pat, i) && IsAt(s, pat, j) ==> i == j
  }

  /**
   `s.replace(pat, rep)` for a string pattern: the string is unchanged when
   the pattern is absent; otherwise only its first occurrence is replaced.
   */
  function ReplaceFirst(s: string, pat: string, rep: string): (r: string)
    ensures !Occurs(s, pat) ==> r == s
    ensures forall i | FirstAt(s, pat, i) :: IsAt(r, rep, i) && r[..i] == s[..i] && r[i + |rep|..] == s[i + |pat|..]
  {
    var i := IndexOf(s, pat);
    if i < 0 then s
    else
      var r := s[..i] + rep + s[i + |pat|..];
      IsAtSplice(s[..i], rep, s[i + |pat|..]);
      assert r[i + |rep|..] == s[i + |pat|..];
      forall i' | FirstAt(s, pat, i') ensures i' == i {
        FirstAtUnique(s, pat, i, i');
      }
      r
  }

  /** The text before the first occurrence of a non-empty separator does not hold it. */
  lemma BeforeFirstFree(s: string, sep: string, i: int)
    requires |sep| > 0 && FirstAt(s, sep, i)
    ensures !Occurs(s[..i], sep)
  {
    if Occurs(s[..i], sep) {
      var k :| IsAt(s[..i], sep, k);
      IsAtPrefix(s, sep, i, k);
    }
  }

  /**
   The text from the first occurrence to the second occurrence (or the end)
   holds no separator, and the string starts with the first piece, the
   separator and the second piece.
   */
  lemma SplitPieces(s: string, sep: string, i: int, p1: string)
    requires |sep| > 0 && FirstAt(s, sep, i)
    requires var rest := s[i + |sep|..]; var j := IndexOf(rest, sep);
      p1 == if j < 0 then rest else rest[..j]
    ensures !Occurs(p1, sep)
    ensures IsAt(s, s[..i] + sep + p1, 0)
    ensures |s| == i + |sep| + |p1| || IsAt(s, sep, i + |sep| + |p1|)
  {
    var rest := s[i + |sep|..];
    var j := IndexOf(rest, sep);
    if j >= 0 {
      BeforeFirstFree(rest, sep, j);
      IsAtSuffix(s, sep, i + |sep|, j);
    }
    assert s[i..i + |sep|] == sep;
    assert s[i + |sep|..i + |sep| + |p1|] == p1;
    assert s[..i + |sep| + |p1|] == s[..i] + sep + p1;
  }

  /**
   The first two elements of `s.split(sep)` for a non-empty separator, as
   array destructuring reads them: without an occurrence the whole string and
   nothing (`undefined`); otherwise the text before the first occurrence and
   the text from there up to the second occurrence or the end. Neither piece
   holds the separator.
   */
  function SplitFirstTwo(s: string, sep: string): (r: (string, Option<string>))
    requires |sep| > 0
    ensures !Occurs(s, sep) <==> r == (s, None)
    ensures !Occurs(r.0, sep)
    ensures r.1.Some? ==> !Occurs(r.1.value, sep)
    ensures Occurs(s, sep) ==> r.1.Some? && FirstAt(s, sep, |r.0|)
    ensures r.1.Some? ==>
      var rest := s[|r.0| + |sep|..];
      if Occurs(rest, sep) then FirstAt(rest, sep, |r.1.value|) else r.1.value == rest
    ensures r.1.Some? ==>
      && IsAt(s, r.0 + sep + r.1.value, 0)
      && (|s| == |r.0| + |sep| + |r.1.value| || IsAt(s, sep, |r.0| + |sep| + |r.1.value|))
  {
    var i := IndexOf(s, sep);
    if i < 0 then (s, None)
    else
      var rest := s[i + |sep|..];
      var j := IndexOf(rest, sep);
      var p1 := if j < 0 then rest else rest[..j];
      BeforeFirstFree(s, sep, i);
      SplitPieces(s, sep, i, p1);
      (s[..i], Some(p1))
  }

  /** The rendered header and the fragments used to recognise an out-of-date one. */
  datatype Header = Header(rendered: string, start: string, end: string)

  lemma OnceSplit(s: string, pat: string)
    requires |pat| > 0 && OccursOnce(s, pat)
    ensures IndexOf(s, pat) >= 0
    ensures IndexOf(s[IndexOf(s, pat) + |pat|..], pat) == -1
    ensures !Occurs(s[..IndexOf(s, pat)], pat)
  {
    var i := IndexOf(s, pat);
    var rest := s[i + |pat|..];
    if Occurs(rest, pat) {
      var j :| IsAt(rest, pat, j);
      IsAtSuffix(s, pat, i + |pat|, j);
    }
    if Occurs(s[..i], pat) {
      var j :| IsAt(s[..i], pat, j);
      IsAtPrefix(s, pat, i, j);
    }
  }

  /**
   The header of a run from a template holding the placeholder exactly once:
   the template is `start + Token + end` with neither fragment holding the
   placeholder, and the rendered header puts the timeframe in its place.
   */
  function MakeHeader(template: string, timeframe: string): (h: Header)
    requires OccursOnce(template, Token)
    ensures template == h.start + Token + h.end
    ensures h.rendered == h.start + timeframe + h.end
    ensures !Occurs(h.start, Token) && !Occurs(h.end, Token)
  {
    OnceSplit(template, Token);
    var (start, end) := SplitFirstTwo(template, Token);
    Header(ReplaceFirst(template, Token, timeframe), start, end.value)
  }

  /** The header of a run with the given options and current year. */
  function HeaderFor(o: Options, currentYear: int): Header
    requires OccursOnce(o.headerText, Token)
  {
    MakeHeader(o.headerText, Timeframe(o.firstYear, currentYear))
  }
}
