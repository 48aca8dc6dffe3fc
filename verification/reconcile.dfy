/**
 Per-file reconciliation: classifying a file's content against the header of
 the run, and the rewrite that update mode applies to it.
 */
module Reconcile {
  import opened Strings
  import opened Header

  /** Exactly one of these holds of every visited file. */
  datatype Status = Current | Stale | Missing

  /**
   A file is current when it contains the rendered header; otherwise stale
   when it contains both fragments, anywhere and in any order; otherwise the
   header is missing.
   */
  function Classify(content: string, h: Header): (st: Status)
    ensures st == Current <==> Occurs(content, h.rendered)
    ensures st == Stale <==>
      !Occurs(content, h.rendered) && Occurs(content, h.start) && Occurs(content, h.end)
    ensures st == Missing <==>
      !Occurs(content, h.rendered) && !(Occurs(content, h.start) && Occurs(content, h.end))
  {
    if IndexOf(content, h.rendered) != -1 then Current
    else if IndexOf(content, h.start) >= 0 && IndexOf(content, h.end) >= 0 then Stale
    else Missing
  }

  /** A missing header goes on a line of its own in front of the unchanged content. */
  function Prepend(content: string, h: Header): (r: string)
    ensures |r| == |h.rendered| + 1 + |content|
    ensures IsAt(r, h.rendered, 0)
    ensures r[|h.rendered|] == '\n'
    ensures r[|h.rendered| + 1..] == content
  {
    var r := h.rendered + "\n" + content;
    IsAtSplice([], h.rendered, "\n" + content);
    assert [] + h.rendered + ("\n" + content) == r;
    r
  }

  /**
   A stale header is overwritten from the first occurrence of the start
   fragment to the end of the first occurrence of the end fragment; the two
   searches are independent, and everything outside that span is kept.
   */
  function Splice(content: string, h: Header): (r: string)
    requires Occurs(content, h.start) && Occurs(content, h.end)
    ensures IsAt(r, h.rendered, IndexOf(content, h.start))
    ensures forall s, e | FirstAt(content, h.start, s) && FirstAt(content, h.end, e) ::
      && r[..s] == content[..s]
      && IsAt(r, h.rendered, s)
      && r[s + |h.rendered|..] == content[e + |h.end|..]
  {
    var s := IndexOf(content, h.start);
    var e := IndexOf(content, h.end) + |h.end|;
    var r := content[..s] + h.rendered + content[e..];
    IsAtSplice(content[..s], h.rendered, content[e..]);
    forall s', e' | FirstAt(content, h.start, s') && FirstAt(content, h.end, e')
      ensures s' == s && e' + |h.end| == e
    {
      FirstAtUnique(content, h.start, s, s');
      FirstAtUnique(content, h.end, e - |h.end|, e');
    }
    assert r[s + |h.rendered|..] == content[e..];
    r
  }

  /**
   The content a file has after update mode has visited it: current files are
   left alone, missing headers are prepended and stale ones spliced over.
   Whatever the class, the result holds the rendered header.
   */
  function Fix(content: string, h: Header): (r: string)
    ensures Classify(content, h) == Current ==> r == content
    ensures Classify(content, h) == Missing ==> r == Prepend(content, h)
    ensures Classify(content, h) == Stale ==> r == Splice(content, h)
    ensures Classify(r, h) == Current
  {
    match Classify(content, h)
    case Current => content
    case Missing => Prepend(content, h)
    case Stale => Splice(content, h)
  }

  /**
   The searches of the source, spelled out, decide the class, and the
   rewrites spelled out with them are the ones `Fix` makes.
   */
  lemma SearchesDecide(content: string, h: Header)
    ensures IndexOf(content, h.rendered) != -1 ==> Classify(content, h) == Current
    ensures IndexOf(content, h.rendered) == -1 && IndexOf(content, h.start) >= 0 && IndexOf(content, h.end) >= 0 ==>
      && Classify(content, h) == Stale
      && Fix(content, h) == content[..IndexOf(content, h.start)] + h.rendered + content[IndexOf(content, h.end) + |h.end|..]
    ensures IndexOf(content, h.rendered) == -1 && !(IndexOf(content, h.start) >= 0 && IndexOf(content, h.end) >= 0) ==>
      && Classify(content, h) == Missing
      && Fix(content, h) == h.rendered + "\n" + content
  {
  }

  /** Rewriting is idempotent: a second update pass changes nothing. */
  lemma FixIdempotent(content: string, h: Header)
    ensures Fix(Fix(content, h), h) == Fix(content, h)
  {
  }

  /** A file that starts with the rendered header on its own line is current. */
  lemma HeaderLineIsCurrent(h: Header, body: string)
    ensures Classify(h.rendered + "\n" + body, h) == Current
  {
    IsAtSplice([], h.rendered, "\n" + body);
    assert [] + h.rendered + ("\n" + body) == h.rendered + "\n" + body;
  }

  /**
   A file that starts with an out-of-date header (`start + oldTimeframe + end`) is
   stale, and updating it replaces exactly that header, provided the end
   fragment does not occur before the old header's own end fragment and the
   file does not already hold the rendered header.
   */
  lemma ReplacesOldHeader(h: Header, oldTimeframe: string, rest: string)
    requires !Occurs(h.start + oldTimeframe + h.end + rest, h.rendered)
    requires forall j :: 0 <= j < |h.start| + |oldTimeframe| ==> !IsAt(h.start + oldTimeframe + h.end + rest, h.end, j)
    ensures Classify(h.start + oldTimeframe + h.end + rest, h) == Stale
    ensures Fix(h.start + oldTimeframe + h.end + rest, h) == h.rendered + rest
  {
    var c := h.start + oldTimeframe + h.end + rest;
    assert c == [] + h.start + (oldTimeframe + h.end + rest);
    IsAtSplice([], h.start, oldTimeframe + h.end + rest);
    assert FirstAt(c, h.start, 0);
    assert c == (h.start + oldTimeframe) + h.end + rest;
    IsAtSplice(h.start + oldTimeframe, h.end, rest);
    assert FirstAt(c, h.end, |h.start| + |oldTimeframe|);
    assert c[|h.start| + |oldTimeframe| + |h.end|..] == rest;
  }
}
