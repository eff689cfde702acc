/** The matching operations every screenshot source provides (the default methods of the
    `Screenshoter` trait in src/screenshoter.rs): one match of a fresh screenshot, its
    threshold filter, and the polling loop that waits for the template to appear. The
    screenshot capability is modelled as the outcomes of successive captures. */
module Screenshoter {
  import opened Wrappers
  import opened Cv

  /** Why a capture failed; the payload stands for the backend's own error. */
  datatype ScreenshotError =
    | AdbScreenshotError(reason: string)
    | XcapScreenshotError(reason: string)

  /** `FindTemplateError`: its only variant wraps a screenshot error (`#[from]`). */
  datatype FindTemplateError = ScreenshotFailed(cause: ScreenshotError)

  /** A captured frame: its size, and what the correlation search reports when this frame,
      reduced to the first size, is searched for the template reduced to the second. */
  datatype Capture = Capture(size: ImageSize, search: Search)

  /** What one call of `screenshot` returns. */
  type Shot = Result<Capture, ScreenshotError>

  /** `find_template`: a screenshot error is wrapped and returned without matching;
      otherwise the fresh frame is matched against the template. */
  function FindTemplate(shot: Shot, template: ImageSize): (r: Result<MatchResult, FindTemplateError>)
    ensures r.Err? <==> shot.Err?
    ensures r.Err? ==> r.error == ScreenshotFailed(shot.error)
    ensures r.Ok? ==> r.value == CenterMatch(shot.value.size, template, shot.value.search)
  {
    match shot
    case Err(e) => Err(ScreenshotFailed(e))
    case Ok(scr) => Ok(CenterMatch(scr.size, template, scr.search))
  }

  /** `find_template_existence`: the match of a fresh screenshot, kept only when its
      correlation is strictly above the threshold; errors pass through. */
  function FindTemplateExistence(shot: Shot, template: ImageSize, threshold: real)
    : (r: Result<Option<MatchResult>, FindTemplateError>)
    ensures r.Err? <==> FindTemplate(shot, template).Err?
    ensures r.Err? ==> r.error == FindTemplate(shot, template).error
    ensures r == Ok(None) <==>
              FindTemplate(shot, template).Ok? && FindTemplate(shot, template).value.correlation <= threshold
    ensures r.Ok? && r.value.Some? <==>
              FindTemplate(shot, template).Ok? && FindTemplate(shot, template).value.correlation > threshold
    ensures r.Ok? && r.value.Some? ==> r.value.value == FindTemplate(shot, template).value
  {
    match FindTemplate(shot, template)
    case Err(e) => Err(e)
    case Ok(found) => if found.correlation > threshold then Ok(Some(found)) else Ok(None)
  }

  /** The state of `wait_template_existence` after the captures given to it: it returned
      `result` after `captures` captures, or all `captures` so far were below the threshold
      and it is still polling. */
  datatype Wait =
    | Finished(result: Result<MatchResult, FindTemplateError>, captures: nat)
    | StillWaiting(captures: nat)

  /** One more capture in front of a later state. */
  function Later(w: Wait): Wait
  {
    match w
    case Finished(res, n) => Finished(res, n + 1)
    case StillWaiting(n) => StillWaiting(n + 1)
  }

  /** The polling loop over the successive capture outcomes `shots`, as a recursion: each
      attempt takes the next capture; an error or a match above the threshold ends the wait. */
  function Waited(shots: seq<Shot>, template: ImageSize, threshold: real): (w: Wait)
    ensures w.captures <= |shots|
    ensures w.StillWaiting? ==> w.captures == |shots|
    ensures w.Finished? ==> 1 <= w.captures
  {
    if shots == [] then StillWaiting(0)
    else match FindTemplateExistence(shots[0], template, threshold)
      case Err(e) => Finished(Err(e), 1)
      case Ok(Some(found)) => Finished(Ok(found), 1)
      case Ok(None) => Later(Waited(shots[1..], template, threshold))
  }

  /** Every one of the first `n` captures was matched and fell at or below the threshold. */
  predicate AllBelow(shots: seq<Shot>, n: nat, template: ImageSize, threshold: real)
    requires n <= |shots|
  {
    forall j :: 0 <= j < n ==> FindTemplateExistence(shots[j], template, threshold) == Ok(None)
  }

  /** `wait_template_existence` over the outcomes of its successive captures: match a fresh
      screenshot, and while nothing is above the threshold take the next one; the first
      error is returned at once. When the captures given run out the loop is still waiting. */
  method WaitTemplateExistence(shots: seq<Shot>, template: ImageSize, threshold: real)
    returns (w: Wait)
    ensures w == Waited(shots, template, threshold)
  {
    if |shots| == 0 {
      return StillWaiting(0);
    }
    var first := FindTemplateExistence(shots[0], template, threshold);
    if first.Err? {
      WaitedEndsOnError(shots, template, threshold, first.error, 1);
      return Finished(Err(first.error), 1);
    }
    var res := first.value;
    var n := 1;
    while res.None?
      invariant 1 <= n <= |shots|
      invariant AllBelow(shots, n - 1, template, threshold)
      invariant FindTemplateExistence(shots[n - 1], template, threshold) == Ok(res)
      decreases |shots| - n
    {
      if n == |shots| {
        WaitedStillWaiting(shots, template, threshold);
        return StillWaiting(n);
      }
      var next := FindTemplateExistence(shots[n], template, threshold);
      if next.Err? {
        WaitedEndsOnError(shots, template, threshold, next.error, n + 1);
        return Finished(Err(next.error), n + 1);
      }
      res := next.value;
      n := n + 1;
    }
    // the loop only exits on `Some`, so this unwrap is always defined
    var found := res.value;
    WaitedFindsFirstAbove(shots, template, threshold, found, n);
    w := Finished(Ok(found), n);
  }

  // ---------------------------------------------------------------------------------------
  // Properties of the polling loop

  /** The wait succeeds after `n` captures with `found` exactly when the `n`-th capture is
      the first whose match is above the threshold, and no earlier one failed. */
  lemma {:induction false} WaitedFindsFirstAbove(shots: seq<Shot>, template: ImageSize, threshold: real,
                                                  found: MatchResult, n: nat)
    ensures Waited(shots, template, threshold) == Finished(Ok(found), n) <==>
              1 <= n <= |shots| && AllBelow(shots, n - 1, template, threshold) &&
              FindTemplateExistence(shots[n - 1], template, threshold) == Ok(Some(found))
  {
    if shots != [] && 1 < n <= |shots| {
      WaitedFindsFirstAbove(shots[1..], template, threshold, found, n - 1);
      ShiftAllBelow(shots, n - 1, template, threshold);
    }
  }

  /** The wait fails after `n` captures with `e` exactly when the `n`-th attempt is the first
      that failed and every earlier one was matched below the threshold. */
  lemma {:induction false} WaitedEndsOnError(shots: seq<Shot>, template: ImageSize, threshold: real,
                                              e: FindTemplateError, n: nat)
    ensures Waited(shots, template, threshold) == Finished(Err(e), n) <==>
              1 <= n <= |shots| && AllBelow(shots, n - 1, template, threshold) &&
              FindTemplateExistence(shots[n - 1], template, threshold) == Err(e)
  {
    if shots != [] && 1 < n <= |shots| {
      WaitedEndsOnError(shots[1..], template, threshold, e, n - 1);
      ShiftAllBelow(shots, n - 1, template, threshold);
    }
  }

  /** The wait is still polling exactly when no capture given has passed or failed. */
  lemma {:induction false} WaitedStillWaiting(shots: seq<Shot>, template: ImageSize, threshold: real)
    ensures Waited(shots, template, threshold).StillWaiting? <==>
              AllBelow(shots, |shots|, template, threshold)
  {
    if shots != [] {
      WaitedStillWaiting(shots[1..], template, threshold);
      ShiftAllBelow(shots, |shots|, template, threshold);
    }
  }

  lemma ShiftAllBelow(shots: seq<Shot>, n: nat, template: ImageSize, threshold: real)
    requires 1 <= n <= |shots|
    ensures AllBelow(shots, n, template, threshold) <==>
              FindTemplateExistence(shots[0], template, threshold) == Ok(None) &&
              AllBelow(shots[1..], n - 1, template, threshold)
  {
    if AllBelow(shots[1..], n - 1, template, threshold) {
      forall j | 1 <= j < n
        ensures FindTemplateExistence(shots[j], template, threshold) == Ok(None)
      {
        assert shots[j] == shots[1..][j - 1];
      }
    }
  }

  /** Once the wait has finished, later captures are never taken: appending outcomes does
      not change the result. While it is still waiting, it continues on the new outcomes
      exactly as a fresh wait would, one capture per attempt. */
  lemma {:induction false} WaitedOnlyLooksAhead(shots: seq<Shot>, more: seq<Shot>,
                                                template: ImageSize, threshold: real)
    ensures var w := Waited(shots, template, threshold);
            w.Finished? ==> Waited(shots + more, template, threshold) == w
    ensures var w := Waited(shots, template, threshold);
            var v := Waited(more, template, threshold);
            w.StillWaiting? ==>
              Waited(shots + more, template, threshold) ==
              (match v
               case Finished(res, n) => Finished(res, |shots| + n)
               case StillWaiting(n) => StillWaiting(|shots| + n))
  {
    if shots != [] {
      assert (shots + more)[0] == shots[0];
      assert (shots + more)[1..] == shots[1..] + more;
      WaitedOnlyLooksAhead(shots[1..], more, template, threshold);
    } else {
      assert shots + more == more;
    }
  }

  /** A first capture that is matched above the threshold ends the wait at once, as with a
      threshold every score exceeds. */
  lemma FirstAboveReturnsAtOnce(shots: seq<Shot>, template: ImageSize, threshold: real)
    requires |shots| >= 1 && shots[0].Ok?
    requires CenterMatch(shots[0].value.size, template, shots[0].value.search).correlation > threshold
    ensures Waited(shots, template, threshold) ==
              Finished(Ok(CenterMatch(shots[0].value.size, template, shots[0].value.search)), 1)
  {
  }
}
