/**
 The scan over the files a walk yields (`walkFiles`) and the two public
 entry points built on it. The walk itself is taken as given: its output is
 the sequence of (path, content) entries that passed the extension filter and
 the exclusion patterns, in visitation order.
 */
module Scan {
  import opened Wrappers
  import opened Strings
  import opened Config
  import opened Header
  import opened Reconcile

  /** A visited file: its path and its text content. */
  datatype Entry = Entry(path: string, content: string)

  /**
   What a walk produces: the paths with a missing header, the paths with an
   out-of-date header (both in visitation order), and every visited file as
   it stands after the walk.
   */
  datatype Report = Report(missing: seq<string>, stale: seq<string>, after: seq<Entry>)

  /** The options can be walked: once they validate, the template holds the placeholder exactly once. */
  ghost predicate TemplateReady(o: Options, currentYear: int) {
    Validate(o, currentYear).Success? ==> OccursOnce(o.headerText, Token)
  }

  /** Paths of the entries of class `st`, in visitation order. */
  function PathsWith(es: seq<Entry>, h: Header, st: Status): seq<string>
    decreases |es|
  {
    if |es| == 0 then []
    else
      var last := es[|es| - 1];
      PathsWith(es[..|es| - 1], h, st) + (if Classify(last.content, h) == st then [last.path] else [])
  }

  /** An entry as it stands after being visited. */
  function Visit(e: Entry, h: Header, shouldUpdate: bool): Entry {
    if shouldUpdate then Entry(e.path, Fix(e.content, h)) else e
  }

  /** Every entry as it stands after being visited. */
  function VisitAll(es: seq<Entry>, h: Header, shouldUpdate: bool): (r: seq<Entry>)
    ensures |r| == |es|
    ensures forall i :: 0 <= i < |es| ==> r[i] == Visit(es[i], h, shouldUpdate)
  {
    seq(|es|, i requires 0 <= i < |es| => Visit(es[i], h, shouldUpdate))
  }

  /**
   `walkFiles` as a fold: validation comes first and its failure ends the
   run before any entry is looked at; otherwise every entry is classified,
   and rewritten in update mode. Check mode leaves every file as it was;
   update mode keeps each path in place, leaves current files alone and
   leaves every file holding the rendered header.
   */
  function Walk(es: seq<Entry>, o: Options, currentYear: int, shouldUpdate: bool): (r: Result<Report, ConfigError>)
    requires TemplateReady(o, currentYear)
    ensures r.Failure? <==> Validate(o, currentYear).Failure?
    ensures r.Failure? ==> r.error == Validate(o, currentYear).error
    ensures r.Success? ==> |r.value.after| == |es|
    ensures r.Success? && !shouldUpdate ==> r.value.after == es
    ensures r.Success? && shouldUpdate ==>
      forall i :: 0 <= i < |es| ==>
        && r.value.after[i].path == es[i].path
        && Classify(r.value.after[i].content, HeaderFor(o, currentYear)) == Current
        && (Classify(es[i].content, HeaderFor(o, currentYear)) == Current ==> r.value.after[i] == es[i])
  {
    match Validate(o, currentYear)
    case Failure(e) => Failure(e)
    case Success(_) =>
      var h := HeaderFor(o, currentYear);
      Success(Report(PathsWith(es, h, Missing), PathsWith(es, h, Stale), VisitAll(es, h, shouldUpdate)))
  }

  /**
   The body of the loop of `walkFiles` for one file, step for step: the same
   searches in the same order and the rewrite of update mode. It finds the
   file's class and the content the file has afterwards.
   */
  method VisitFile(e: Entry, h: Header, shouldUpdate: bool) returns (st: Status, written: string)
    ensures st == Classify(e.content, h)
    ensures Entry(e.path, written) == Visit(e, h, shouldUpdate)
  {
    var content := e.content;
    SearchesDecide(content, h);
    written := content;
    st := Current;
    if IndexOf(content, h.rendered) == -1 {
      if IndexOf(content, h.start) >= 0 && IndexOf(content, h.end) >= 0 {
        st := Stale;
        if shouldUpdate {
          var startIndex := IndexOf(content, h.start);
          var endIndex := IndexOf(content, h.end) + |h.end|;
          written := content[..startIndex] + h.rendered + content[endIndex..];
        }
      } else {
        st := Missing;
        if shouldUpdate {
          written := h.rendered + "\n" + content;
        }
      }
    }
  }

  /**
   The loop of `walkFiles` (after validation): one list append per
   non-current file, in visitation order, and every file as it stands
   afterwards. It builds the lists and the visited entries `Walk` describes.
   */
  method VisitFiles(es: seq<Entry>, h: Header, shouldUpdate: bool)
    returns (missing: seq<string>, stale: seq<string>, after: seq<Entry>)
    ensures missing == PathsWith(es, h, Missing)
    ensures stale == PathsWith(es, h, Stale)
    ensures after == VisitAll(es, h, shouldUpdate)
  {
    missing, stale, after := [], [], [];
    var i := 0;
    while i < |es|
      invariant 0 <= i <= |es|
      invariant missing == PathsWith(es[..i], h, Missing)
      invariant stale == PathsWith(es[..i], h, Stale)
      invariant after == VisitAll(es[..i], h, shouldUpdate)
    {
      var st, written := VisitFile(es[i], h, shouldUpdate);
      if st == Stale {
        stale := stale + [es[i].path];
      } else if st == Missing {
        missing := missing + [es[i].path];
      }
      after := after + [Entry(es[i].path, written)];
      StepPrefix(es, i, h, shouldUpdate);
      i := i + 1;
    }
    assert es[..|es|] == es;
  }

  /** `walkFiles`: validation first, then the loop over the visited files. */
  method WalkFiles(es: seq<Entry>, o: Options, currentYear: int, shouldUpdate: bool)
    returns (r: Result<Report, ConfigError>)
    requires TemplateReady(o, currentYear)
    ensures r == Walk(es, o, currentYear, shouldUpdate)
  {
    var v := Validate(o, currentYear);
    if v.Failure? {
      return Failure(v.error);
    }
    var h := HeaderFor(o, currentYear);
    var missing, stale, after := VisitFiles(es, h, shouldUpdate);
    r := Success(Report(missing, stale, after));
  }

  /** One more step of the walk extends the lists and the visited entries by the next entry. */
  lemma StepPrefix(es: seq<Entry>, i: nat, h: Header, shouldUpdate: bool)
    requires i < |es|
    ensures forall st :: (PathsWith(es[..i + 1], h, st) ==
      PathsWith(es[..i], h, st) + (if Classify(es[i].content, h) == st then [es[i].path] else []))
    ensures VisitAll(es[..i + 1], h, shouldUpdate) == VisitAll(es[..i], h, shouldUpdate) + [Visit(es[i], h, shouldUpdate)]
  {
    assert es[..i + 1][..i] == es[..i];
  }

  /** Both lists are empty exactly when every entry is current. */
  lemma {:induction false} NoneListedIffAllCurrent(es: seq<Entry>, h: Header)
    ensures PathsWith(es, h, Missing) == [] && PathsWith(es, h, Stale) == [] <==>
      forall i :: 0 <= i < |es| ==> Classify(es[i].content, h) == Current
    decreases |es|
  {
    if |es| > 0 {
      var init := es[..|es| - 1];
      NoneListedIffAllCurrent(init, h);
      assert forall i :: 0 <= i < |init| ==> init[i] == es[i];
    }
  }

  /**
   `checkCopyrightHeaders`: true exactly when every visited file already
   holds the rendered header, that is when both lists are empty.
   */
  function CheckCopyrightHeaders(es: seq<Entry>, o: Options, currentYear: int): (r: Result<bool, ConfigError>)
    requires TemplateReady(o, currentYear)
    ensures r.Failure? <==> Validate(o, currentYear).Failure?
    ensures r.Failure? ==> r.error == Validate(o, currentYear).error
    ensures r.Success? ==>
      (r.value <==> forall i :: 0 <= i < |es| ==> Classify(es[i].content, HeaderFor(o, currentYear)) == Current)
  {
    match Walk(es, o, currentYear, false)
    case Failure(e) => Failure(e)
    case Success(rep) =>
      NoneListedIffAllCurrent(es, HeaderFor(o, currentYear));
      Success(|rep.missing| == 0 && |rep.stale| == 0)
  }

  /**
   `updateCopyrightHeaders`: the walk in update mode. It fails with the
   validation error, or rewrites every visited file as `Fix` does, after
   which every file is current.
   */
  function UpdateCopyrightHeaders(es: seq<Entry>, o: Options, currentYear: int): (r: Result<Report, ConfigError>)
    requires TemplateReady(o, currentYear)
    ensures r.Failure? <==> Validate(o, currentYear).Failure?
    ensures r.Failure? ==> r.error == Validate(o, currentYear).error
    ensures r.Success? ==> r.value.after == VisitAll(es, HeaderFor(o, currentYear), true)
    ensures r.Success? ==> |r.value.after| == |es|
    ensures r.Success? ==>
      forall i :: 0 <= i < |es| ==> Classify(r.value.after[i].content, HeaderFor(o, currentYear)) == Current
  {
    Walk(es, o, currentYear, true)
  }

  /** Updating and then checking, with the same options and year, reports success. */
  lemma UpdateThenCheck(es: seq<Entry>, o: Options, currentYear: int)
    requires TemplateReady(o, currentYear)
    requires Validate(o, currentYear).Success?
    ensures CheckCopyrightHeaders(UpdateCopyrightHeaders(es, o, currentYear).value.after, o, currentYear) == Success(true)
  {
  }

  /** A second update finds nothing to do and changes no file. */
  lemma UpdateIdempotent(es: seq<Entry>, o: Options, currentYear: int)
    requires TemplateReady(o, currentYear)
    requires Validate(o, currentYear).Success?
    ensures var after := UpdateCopyrightHeaders(es, o, currentYear).value.after;
      UpdateCopyrightHeaders(after, o, currentYear) == Success(Report([], [], after))
  {
    var h := HeaderFor(o, currentYear);
    var after := UpdateCopyrightHeaders(es, o, currentYear).value.after;
    NoneListedIffAllCurrent(after, h);
    assert VisitAll(after, h, true) == after;
  }

  /** A path is listed under a class exactly when some visited entry with that path has that class. */
  lemma {:induction false} PathsWithMembership(es: seq<Entry>, h: Header, st: Status, p: string)
    ensures p in PathsWith(es, h, st) <==>
      exists i :: 0 <= i < |es| && es[i].path == p && Classify(es[i].content, h) == st
    decreases |es|
  {
    if |es| > 0 {
      var init := es[..|es| - 1];
      PathsWithMembership(init, h, st, p);
      assert forall i :: 0 <= i < |init| ==> init[i] == es[i];
    }
  }

  /**
   The lists follow visitation order: the entries visited first contribute
   their paths first.
   */
  lemma {:induction false} PathsWithAppend(a: seq<Entry>, b: seq<Entry>, h: Header, st: Status)
    ensures PathsWith(a + b, h, st) == PathsWith(a, h, st) + PathsWith(b, h, st)
    decreases |b|
  {
    if |b| == 0 {
      assert a + b == a;
    } else {
      var init := b[..|b| - 1];
      PathsWithAppend(a, init, h, st);
      assert (a + b)[..|a + b| - 1] == a + init;
      assert (a + b)[|a + b| - 1] == b[|b| - 1];
    }
  }

  /** Every visited entry is counted in exactly one class. */
  lemma {:induction false} PathsWithPartition(es: seq<Entry>, h: Header)
    ensures |PathsWith(es, h, Current)| + |PathsWith(es, h, Stale)| + |PathsWith(es, h, Missing)| == |es|
    decreases |es|
  {
    if |es| > 0 {
      PathsWithPartition(es[..|es| - 1], h);
    }
  }

  /** No two visited entries share a path (a walk visits each file once). */
  predicate DistinctPaths(es: seq<Entry>) {
    forall i, j :: 0 <= i < j < |es| ==> es[i].path != es[j].path
  }

  /**
   With distinct paths, each entry is listed under its own class and under
   no other: a current file is neither missing nor stale, and no path is
   both.
   */
  lemma ClassesExclusive(es: seq<Entry>, h: Header, i: int)
    requires DistinctPaths(es)
    requires 0 <= i < |es|
    ensures es[i].path in PathsWith(es, h, Classify(es[i].content, h))
    ensures forall st :: st != Classify(es[i].content, h) ==> es[i].path !in PathsWith(es, h, st)
  {
    forall st
      ensures es[i].path in PathsWith(es, h, st) <==> st == Classify(es[i].content, h)
    {
      PathsWithMembership(es, h, st, es[i].path);
    }
  }
}
