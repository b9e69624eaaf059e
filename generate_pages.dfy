/** Page generation: narrowing the book's page list to a target page when
    one is asked for, then folding the list left to right, rendering each
    page against the current output and handing the result to the
    generator's `onPage`, whose value becomes the output for the next page.
    The first failure is logged with the page's path and ends the run.

    `O` is the output threaded through the fold and `R` a rendered page;
    the renderer (`generatePage`) and `onPage` are parameters. */
module PageGeneration {
  import opened Wrappers

  /** A page of the book; only the path of its source file is observable here. */
  datatype Page = Page(path: string)

  /** A generator that may or may not handle pages. */
  datatype Generator<!O, -R> = Generator(onPage: Option<(O, R) -> Result<O>>)

  datatype Level = DebugLevel | ErrorLevel

  /** A logged line, reduced to its level and the page path it names. */
  datatype LogLine = LogLine(level: Level, path: string)

  /** The outcome of a run together with the lines it logged, in order. */
  datatype Run<O> = Run(result: Result<O>, log: seq<LogLine>)

  // ---------------------------------------------------------------------
  // Target selection
  // ---------------------------------------------------------------------

  /** A target path narrows the list only when it is a non-empty string. */
  predicate Narrows(filePath: Option<string>) {
    filePath.Some? && filePath.value != ""
  }

  /** `s.endsWith(suffix)`. */
  predicate EndsWith(s: string, suffix: string) {
    |suffix| <= |s| && s[|s| - |suffix|..] == suffix
  }

  /** `k` is the index of the first page whose path ends with `target`. */
  predicate IsFirstMatch(pages: seq<Page>, target: string, k: nat) {
    k < |pages| && EndsWith(pages[k].path, target)
    && forall j :: 0 <= j < k ==> !EndsWith(pages[j].path, target)
  }

  /** `pages.find(...)`: the index of the first page whose path ends with `target`. */
  function FindPage(pages: seq<Page>, target: string): (r: Option<nat>)
    ensures r.Some? ==> IsFirstMatch(pages, target, r.value)
    ensures r.None? ==> forall k :: 0 <= k < |pages| ==> !EndsWith(pages[k].path, target)
  {
    if pages == [] then None
    else if EndsWith(pages[0].path, target) then Some(0)
    else
      match FindPage(pages[1..], target)
      case None => None
      case Some(k) => Some(k + 1)
  }

  // ---------------------------------------------------------------------
  // The fold, as a specification
  // ---------------------------------------------------------------------

  /** Render one page against `out`, then let the generator consume it. */
  function Step<O, R>(render: (O, Page) -> Result<R>, onPage: (O, R) -> Result<O>, out: O, page: Page): Result<O> {
    var rendered :- render(out, page);
    onPage(out, rendered)
  }

  function DebugLines(pages: seq<Page>): (log: seq<LogLine>)
    ensures |log| == |pages|
    ensures forall i :: 0 <= i < |pages| ==> log[i] == LogLine(DebugLevel, pages[i].path)
  {
    if pages == [] then [] else [LogLine(DebugLevel, pages[0].path)] + DebugLines(pages[1..])
  }

  /** Lines logged before a run are kept in front of the run's own. */
  function Prepend<O>(log: seq<LogLine>, run: Run<O>): Run<O> {
    Run(run.result, log + run.log)
  }

  /** The sequential fold over `pages` starting from `out`. */
  function Fold<O, R>(render: (O, Page) -> Result<R>, onPage: (O, R) -> Result<O>, out: O, pages: seq<Page>): Run<O>
    decreases |pages|
  {
    if pages == [] then Run(Success(out), [])
    else
      var page := pages[0];
      match Step(render, onPage, out, page)
      case Failure(e) => Run(Failure(e), [LogLine(DebugLevel, page.path), LogLine(ErrorLevel, page.path)])
      case Success(next) => Prepend([LogLine(DebugLevel, page.path)], Fold(render, onPage, next, pages[1..]))
  }

  /** `accs` is the chain of outputs a run over `pages` threads: it starts at
      `out`, and page i turns accs[i] into accs[i + 1]. */
  ghost predicate Threaded<O, R>(render: (O, Page) -> Result<R>, onPage: (O, R) -> Result<O>,
                                 out: O, pages: seq<Page>, accs: seq<O>) {
    |accs| == |pages| + 1 && accs[0] == out
    && forall i :: 0 <= i < |pages| ==> Step(render, onPage, accs[i], pages[i]) == Success(accs[i + 1])
  }

  // ---------------------------------------------------------------------
  // Properties of the fold
  // ---------------------------------------------------------------------

  /** Running over `xs + ys` is running over `xs`, then, if that succeeded,
      over `ys` from the output `xs` produced. */
  lemma {:induction false} FoldAppend<O, R>(render: (O, Page) -> Result<R>, onPage: (O, R) -> Result<O>,
                                            out: O, xs: seq<Page>, ys: seq<Page>)
    ensures Fold(render, onPage, out, xs + ys)
         == match Fold(render, onPage, out, xs).result
            case Failure(_) => Fold(render, onPage, out, xs)
            case Success(mid) => Prepend(Fold(render, onPage, out, xs).log, Fold(render, onPage, mid, ys))
    decreases |xs|
  {
    if xs == [] {
      assert xs + ys == ys;
      assert Prepend([], Fold(render, onPage, out, ys)) == Fold(render, onPage, out, ys);
    } else {
      assert (xs + ys)[0] == xs[0] && (xs + ys)[1..] == xs[1..] + ys;
      match Step(render, onPage, out, xs[0])
      case Failure(_) =>
      case Success(next) =>
        FoldAppend(render, onPage, next, xs[1..], ys);
        var first := [LogLine(DebugLevel, xs[0].path)];
        match Fold(render, onPage, next, xs[1..]).result
        case Failure(_) =>
        case Success(mid) =>
          var rest := Fold(render, onPage, mid, ys);
          assert first + (Fold(render, onPage, next, xs[1..]).log + rest.log)
              == (first + Fold(render, onPage, next, xs[1..]).log) + rest.log;
    }
  }

  /** Every page processed exactly once, in order: a chain of successful
      steps gives the last output and one debug line per page. */
  lemma {:induction false} FoldSucceeds<O, R>(render: (O, Page) -> Result<R>, onPage: (O, R) -> Result<O>,
                                              out: O, pages: seq<Page>, accs: seq<O>)
    requires Threaded(render, onPage, out, pages, accs)
    ensures Fold(render, onPage, out, pages) == Run(Success(accs[|pages|]), DebugLines(pages))
    decreases |pages|
  {
    if pages != [] {
      assert Threaded(render, onPage, accs[1], pages[1..], accs[1..]) by {
        forall i | 0 <= i < |pages| - 1
          ensures Step(render, onPage, accs[1..][i], pages[1..][i]) == Success(accs[1..][i + 1])
        {
          assert Step(render, onPage, accs[i + 1], pages[i + 1]) == Success(accs[i + 2]);
        }
      }
      FoldSucceeds(render, onPage, accs[1], pages[1..], accs[1..]);
      assert Step(render, onPage, accs[0], pages[0]) == Success(accs[1]);
    }
  }

  /** A failure at page k ends the run: its error is returned, the debug
      lines of pages 0..k are followed by one error line naming page k, and
      no page after k is looked at (the outcome does not depend on them). */
  lemma {:induction false} FoldAbortsAt<O, R>(render: (O, Page) -> Result<R>, onPage: (O, R) -> Result<O>,
                                              out: O, pages: seq<Page>, k: nat, accs: seq<O>)
    requires k < |pages| && Threaded(render, onPage, out, pages[..k], accs)
    requires Step(render, onPage, accs[k], pages[k]).Failure?
    ensures Fold(render, onPage, out, pages)
         == Run(Failure(Step(render, onPage, accs[k], pages[k]).error),
                DebugLines(pages[..k + 1]) + [LogLine(ErrorLevel, pages[k].path)])
  {
    assert pages == pages[..k] + pages[k..];
    FoldAppend(render, onPage, out, pages[..k], pages[k..]);
    FoldSucceeds(render, onPage, out, pages[..k], accs);
    assert pages[k..][0] == pages[k];
    var d := DebugLines(pages[..k]);
    assert DebugLines(pages[..k + 1]) == d + [LogLine(DebugLevel, pages[k].path)];
    assert d + [LogLine(DebugLevel, pages[k].path), LogLine(ErrorLevel, pages[k].path)]
        == d + [LogLine(DebugLevel, pages[k].path)] + [LogLine(ErrorLevel, pages[k].path)];
  }

  /** Conversely, every run either threads a chain through all pages or
      fails at some page k after threading a chain through the pages before it. */
  lemma {:induction false} FoldOutcome<O, R>(render: (O, Page) -> Result<R>, onPage: (O, R) -> Result<O>,
                                             out: O, pages: seq<Page>)
    ensures Fold(render, onPage, out, pages).result.Success? ==>
              exists accs :: Threaded(render, onPage, out, pages, accs)
                             && Fold(render, onPage, out, pages).result.value == accs[|pages|]
    ensures Fold(render, onPage, out, pages).result.Failure? ==>
              exists k: nat, accs :: k < |pages| && Threaded(render, onPage, out, pages[..k], accs)
                                    && Step(render, onPage, accs[k], pages[k]).Failure?
    decreases |pages|
  {
    if pages == [] {
      assert Threaded(render, onPage, out, pages, [out]);
    } else if Step(render, onPage, out, pages[0]).Failure? {
      assert pages[..0] == [];
      assert Threaded(render, onPage, out, pages[..0], [out]);
    } else {
      var next := Step(render, onPage, out, pages[0]).value;
      FoldOutcome(render, onPage, next, pages[1..]);
      if Fold(render, onPage, out, pages).result.Success? {
        var accs :| Threaded(render, onPage, next, pages[1..], accs)
                    && Fold(render, onPage, next, pages[1..]).result.value == accs[|pages| - 1];
        assert Threaded(render, onPage, out, pages, [out] + accs);
      } else {
        var k: nat, accs :| k < |pages[1..]| && Threaded(render, onPage, next, pages[1..][..k], accs)
                            && Step(render, onPage, accs[k], pages[1..][k]).Failure?;
        assert pages[1..][..k] == pages[..k + 1][1..];
        assert Threaded(render, onPage, out, pages[..k + 1], [out] + accs);
      }
    }
  }

  /** A narrowed list holds one page, so the run is exactly one step from
      `out`: one debug line, and an error line only if that step fails. */
  lemma SinglePageRun<O, R>(render: (O, Page) -> Result<R>, onPage: (O, R) -> Result<O>, out: O, page: Page)
    ensures Fold(render, onPage, out, [page])
         == match Step(render, onPage, out, page)
            case Failure(e) => Run(Failure(e), [LogLine(DebugLevel, page.path), LogLine(ErrorLevel, page.path)])
            case Success(next) => Run(Success(next), [LogLine(DebugLevel, page.path)])
  {
    assert [page][1..] == [];
  }

  // ---------------------------------------------------------------------
  // The methods
  // ---------------------------------------------------------------------

  /** `Promise.reduce(pages, ..., output)`: one debug line per page, then
      render and `onPage`; on the first failure an error line for that page
      and the same error, with no later page processed. */
  method ReducePages<O, R>(render: (O, Page) -> Result<R>, onPage: (O, R) -> Result<O>,
                           output: O, pages: seq<Page>)
    returns (result: Result<O>, log: seq<LogLine>)
    ensures Run(result, log) == Fold(render, onPage, output, pages)
  {
    var out := output;
    log := [];
    var i := 0;
    while i < |pages|
      invariant 0 <= i <= |pages|
      invariant Fold(render, onPage, output, pages) == Prepend(log, Fold(render, onPage, out, pages[i..]))
    {
      var page := pages[i];
      assert pages[i..][0] == page && pages[i..][1..] == pages[i + 1..];
      log := log + [LogLine(DebugLevel, page.path)];
      var rendered := render(out, page);
      if rendered.Failure? {
        log := log + [LogLine(ErrorLevel, page.path)];
        return Failure(rendered.error), log;
      }
      var next := onPage(out, rendered.value);
      if next.Failure? {
        log := log + [LogLine(ErrorLevel, page.path)];
        return Failure(next.error), log;
      }
      out := next.value;
      i := i + 1;
    }
    return Success(out), log;
  }

  /** `generatePages`: nothing happens for a generator without `onPage`;
      otherwise the page list is narrowed to the first page whose path ends
      with a given target, or cut to its first page when none does, and then
      folded. A generator with `onPage`, a target and an empty list is
      outside the model. */
  method GeneratePages<O, R>(generator: Generator<O, R>, render: (O, Page) -> Result<R>,
                             output: O, pages: seq<Page>, filePath: Option<string>)
    returns (result: Result<O>, log: seq<LogLine>)
    requires generator.onPage.Some? && Narrows(filePath) ==> pages != []
    ensures generator.onPage.None? ==> result == Success(output) && log == []
    ensures generator.onPage.Some? && !Narrows(filePath) ==>
              Run(result, log) == Fold(render, generator.onPage.value, output, pages)
    ensures generator.onPage.Some? && Narrows(filePath) ==>
              forall k: nat :: IsFirstMatch(pages, filePath.value, k) ==>
                Run(result, log) == Fold(render, generator.onPage.value, output, [pages[k]])
    ensures generator.onPage.Some? && Narrows(filePath)
            && (forall k :: 0 <= k < |pages| ==> !EndsWith(pages[k].path, filePath.value)) ==>
              Run(result, log) == Fold(render, generator.onPage.value, output, [pages[0]])
  {
    if generator.onPage.None? {
      return Success(output), [];
    }
    var selected := pages;
    if Narrows(filePath) {
      var target := FindPage(pages, filePath.value);
      if target.None? {
        selected := selected[..1];
      } else {
        selected := [pages[target.value]];
      }
    }
    result, log := ReducePages(render, generator.onPage.value, output, selected);
  }
}
