/**
 Source excerpts collected from locator hits: only the location of a hit is
 trusted, overlapping and adjacent hits are merged in place, and the number of
 excerpts is capped.
 */
module Excerpts {
  import opened Common

  type Path = string

  const MAX_EXCERPT_LINES := 200

  /** One locator hit.  `path` is absent when it is unsafe; a range that is not two integers is any invalid one. */
  datatype Hit = Hit(path: Option<Path>, start: int, end: int, symbol: Option<string>)

  datatype Excerpt = Excerpt(path: Path, start: int, end: int, symbol: Option<string>, content: seq<string>)

  // ----------------------------------------------------------------- validity

  predicate ValidRange(start: int, end: int) {
    1 <= start <= end && end - start + 1 <= MAX_EXCERPT_LINES
  }

  /** Whether a hit names lines that exist at the base commit. */
  predicate Usable(files: map<Path, seq<string>>, h: Hit) {
    && h.path.Some?
    && ValidRange(h.start, h.end)
    && h.path.value in files
    && h.end <= |files[h.path.value]|
  }

  /** The text of a usable hit is the slice of the base file, whatever the locator said. */
  function ExcerptFromHit(files: map<Path, seq<string>>, h: Hit): Option<Excerpt> {
    if Usable(files, h)
    then Some(Excerpt(h.path.value, h.start, h.end, h.symbol, files[h.path.value][h.start - 1..h.end]))
    else None
  }

  ghost predicate Faithful(files: map<Path, seq<string>>, e: Excerpt) {
    && ValidRange(e.start, e.end)
    && e.path in files
    && e.end <= |files[e.path]|
    && e.content == files[e.path][e.start - 1..e.end]
  }

  // ----------------------------------------------------------------- coverage

  /** The lines of one range, each with its file. */
  function Lines(path: Path, start: int, end: int): set<(Path, int)> {
    set l | start <= l <= end :: (path, l)
  }

  function Coverage(excerpts: seq<Excerpt>): set<(Path, int)> {
    if excerpts == [] then {}
    else
      var last := |excerpts| - 1;
      Coverage(excerpts[..last]) + Lines(excerpts[last].path, excerpts[last].start, excerpts[last].end)
  }

  /** The lines the first `n` hits ask for: usable ones outside instruction files. */
  function Requested(files: map<Path, seq<string>>, isInstruction: Path -> bool, hits: seq<Hit>, n: nat)
    : set<(Path, int)>
    requires n <= |hits|
  {
    if n == 0 then {}
    else
      var h := hits[n - 1];
      Requested(files, isInstruction, hits, n - 1)
      + if Usable(files, h) && !isInstruction(h.path.value) then Lines(h.path.value, h.start, h.end) else {}
  }

  /** Replacing one excerpt by a larger one adds exactly the new lines. */
  lemma {:induction false} CoverageGrows(excerpts: seq<Excerpt>, i: nat, e: Excerpt, added: set<(Path, int)>)
    requires i < |excerpts|
    requires Lines(e.path, e.start, e.end) == Lines(excerpts[i].path, excerpts[i].start, excerpts[i].end) + added
    ensures Coverage(excerpts[i := e]) == Coverage(excerpts) + added
  {
    var last := |excerpts| - 1;
    if i == last {
      assert excerpts[i := e][..last] == excerpts[..last];
    } else {
      assert excerpts[i := e][..last] == excerpts[..last][i := e];
      CoverageGrows(excerpts[..last], i, e, added);
    }
  }

  // ------------------------------------------------------------------- merging

  predicate Touches(a: Excerpt, b: Excerpt) {
    a.path == b.path && b.start <= a.end + 1 && b.end >= a.start - 1
  }

  function Min(a: int, b: int): int {
    if a <= b then a else b
  }

  function Max(a: int, b: int): int {
    if a >= b then a else b
  }

  /** The first excerpt from `from` on that a new one touches, or the length when there is none. */
  function FirstTouched(excerpts: seq<Excerpt>, added: Excerpt, from: nat): (i: nat)
    requires from <= |excerpts|
    ensures from <= i <= |excerpts|
    ensures i < |excerpts| ==> Touches(excerpts[i], added)
    ensures forall j :: from <= j < i ==> !Touches(excerpts[j], added)
    decreases |excerpts| - from
  {
    if from == |excerpts| || Touches(excerpts[from], added) then from else FirstTouched(excerpts, added, from + 1)
  }

  predicate FitTogether(a: Excerpt, b: Excerpt) {
    Max(a.end, b.end) - Min(a.start, b.start) + 1 <= MAX_EXCERPT_LINES
  }

  /** Joining two touching ranges covers exactly their union. */
  lemma JoinedLines(a: Excerpt, b: Excerpt)
    requires Touches(a, b) && a.start <= a.end && b.start <= b.end
    ensures Lines(a.path, Min(a.start, b.start), Max(a.end, b.end))
      == Lines(a.path, a.start, a.end) + Lines(b.path, b.start, b.end)
  {
    forall l | Min(a.start, b.start) <= l <= Max(a.end, b.end)
      ensures (a.path, l) in Lines(a.path, a.start, a.end) + Lines(b.path, b.start, b.end)
    {
    }
  }

  lemma {:induction false} CountLines(path: Path, start: int, end: int)
    requires start <= end + 1
    ensures |Lines(path, start, end)| == end - start + 1
    decreases end - start + 1
  {
    if start <= end {
      CountLines(path, start, end - 1);
      assert Lines(path, start, end) == Lines(path, start, end - 1) + {(path, end)};
    } else {
      assert Lines(path, start, end) == {};
    }
  }

  /** A hit gives an excerpt exactly when it names at most so many lines of a file, and all of them exist. */
  lemma UsableExactlyWhen(files: map<Path, seq<string>>, h: Hit)
    ensures ExcerptFromHit(files, h).Some? <==>
            && h.path.Some? && h.path.value in files && h.start <= h.end
            && |Lines(h.path.value, h.start, h.end)| <= MAX_EXCERPT_LINES
            && Lines(h.path.value, h.start, h.end) <= Lines(h.path.value, 1, |files[h.path.value]|)
  {
    if h.path.Some? && h.path.value in files && h.start <= h.end {
      var path := h.path.value;
      CountLines(path, h.start, h.end);
      assert (path, h.start) in Lines(path, h.start, h.end) && (path, h.end) in Lines(path, h.start, h.end);
    }
  }

  /** Two excerpts touch exactly when one shares a line with the other one, widened by a line on either side. */
  lemma TouchesExactlyWhen(a: Excerpt, b: Excerpt)
    requires a.start <= a.end && b.start <= b.end
    ensures Touches(a, b) <==> !(Lines(a.path, a.start, a.end) !! Lines(b.path, b.start - 1, b.end + 1))
  {
    if Touches(a, b) {
      var l := Max(a.start, b.start - 1);
      assert (a.path, l) in Lines(a.path, a.start, a.end) && (b.path, l) in Lines(b.path, b.start - 1, b.end + 1);
    }
  }

  /** Touching excerpts fit together exactly when they have no more lines in all than one excerpt may have. */
  lemma FitTogetherExactlyWhen(a: Excerpt, b: Excerpt)
    requires Touches(a, b) && a.start <= a.end && b.start <= b.end
    ensures FitTogether(a, b) <==>
            |Lines(a.path, a.start, a.end) + Lines(b.path, b.start, b.end)| <= MAX_EXCERPT_LINES
  {
    JoinedLines(a, b);
    CountLines(a.path, Min(a.start, b.start), Max(a.end, b.end));
  }

  function Slice(files: map<Path, seq<string>>, path: Path, start: int, end: int): seq<string> {
    if path in files && 1 <= start <= end <= |files[path]| then files[path][start - 1..end] else []
  }

  /** Two excerpts as one, with the text of the base file. */
  function Joined(files: map<Path, seq<string>>, a: Excerpt, b: Excerpt): Excerpt {
    var start, end := Min(a.start, b.start), Max(a.end, b.end);
    Excerpt(a.path, start, end, if a.symbol.Some? then a.symbol else b.symbol, Slice(files, a.path, start, end))
  }

  /** Whether a new excerpt is merged: into the first one it touches, or not at all. */
  predicate Mergeable(excerpts: seq<Excerpt>, added: Excerpt) {
    var i := FirstTouched(excerpts, added, 0);
    i < |excerpts| && FitTogether(excerpts[i], added)
  }

  /** The excerpts with one more, or a refusal for want of room. */
  function Included(files: map<Path, seq<string>>, maxHits: int, excerpts: seq<Excerpt>,
                    added: Excerpt): Option<seq<Excerpt>> {
    var i := FirstTouched(excerpts, added, 0);
    if Mergeable(excerpts, added) then Some(excerpts[i := Joined(files, excerpts[i], added)])
    else if |excerpts| >= maxHits then None
    else Some(excerpts + [added])
  }

  datatype Progress = Progress(excerpts: seq<Excerpt>, processed: nat)

  /** Where the hit loop ends from one of its states. */
  function CollectFrom(files: map<Path, seq<string>>, isInstruction: Path -> bool, maxHits: int, hits: seq<Hit>,
                       at: Progress): Progress
    requires at.processed <= |hits|
    decreases |hits| - at.processed
  {
    if at.processed == |hits| then at
    else
      var found := ExcerptFromHit(files, hits[at.processed]);
      if found.None? || isInstruction(found.value.path) then
        CollectFrom(files, isInstruction, maxHits, hits, at.(processed := at.processed + 1))
      else
        match Included(files, maxHits, at.excerpts, found.value)
        case None => at
        case Some(more) => CollectFrom(files, isInstruction, maxHits, hits, Progress(more, at.processed + 1))
  }

  /** One turn of the hit loop. */
  lemma CollectsOn(files: map<Path, seq<string>>, isInstruction: Path -> bool, maxHits: int, hits: seq<Hit>,
                   at: Progress, next: Progress)
    requires at.processed < |hits| && next.processed == at.processed + 1
    requires var found := ExcerptFromHit(files, hits[at.processed]);
             if found.None? || isInstruction(found.value.path) then next.excerpts == at.excerpts
             else Included(files, maxHits, at.excerpts, found.value) == Some(next.excerpts)
    ensures CollectFrom(files, isInstruction, maxHits, hits, at)
         == CollectFrom(files, isInstruction, maxHits, hits, next)
  {
  }

  class ExcerptCollector {
    const files: map<Path, seq<string>>
    const isInstruction: Path -> bool
    const maxHits: int
    var excerpts: seq<Excerpt>

    constructor (files: map<Path, seq<string>>, isInstruction: Path -> bool, maxHits: int)
      ensures this.files == files && this.isInstruction == isInstruction && this.maxHits == maxHits && excerpts == []
    {
      this.files, this.isInstruction, this.maxHits, excerpts := files, isInstruction, maxHits, [];
    }

    ghost predicate Valid()
      reads this
    {
      forall i :: 0 <= i < |excerpts| ==> Faithful(files, excerpts[i])
    }

    /**
     Merge a new excerpt into the first one of its file that it touches, and into no other,
     unless the result is too long.
     */
    method Merge(added: Excerpt) returns (merged: bool)
      requires Valid() && Faithful(files, added)
      modifies this
      ensures Valid()
      ensures merged <==> Mergeable(old(excerpts), added)
      ensures !merged ==> excerpts == old(excerpts)
      ensures merged ==>
        var first := FirstTouched(old(excerpts), added, 0);
        && excerpts == old(excerpts)[first := Joined(files, old(excerpts)[first], added)]
        && Coverage(excerpts) == Coverage(old(excerpts)) + Lines(added.path, added.start, added.end)
    {
      var index := 0;
      while index < |excerpts|
        invariant 0 <= index <= |excerpts| && excerpts == old(excerpts)
        invariant FirstTouched(excerpts, added, index) == FirstTouched(excerpts, added, 0)
      {
        var existing := excerpts[index];
        if existing.path != added.path || added.start > existing.end + 1 || added.end < existing.start - 1 {
          index := index + 1;
          continue;
        }
        var start, end := Min(existing.start, added.start), Max(existing.end, added.end);
        if end - start + 1 > MAX_EXCERPT_LINES {
          return false;
        }
        var symbol := if existing.symbol.Some? then existing.symbol else added.symbol;
        var joined := Excerpt(existing.path, start, end, symbol, files[existing.path][start - 1..end]);
        assert joined == Joined(files, existing, added) && Faithful(files, joined);
        JoinedLines(existing, added);
        CoverageGrows(excerpts, index, joined, Lines(added.path, added.start, added.end));
        excerpts := excerpts[index := joined];
        return true;
      }
      return false;
    }

    /** Merge a new excerpt, or append it while there is room; refuse it otherwise. */
    method Include(added: Excerpt) returns (included: bool)
      requires Valid() && Faithful(files, added)
      modifies this
      ensures Valid()
      ensures included <==> Included(files, maxHits, old(excerpts), added).Some?
      ensures included ==>
        && Some(excerpts) == Included(files, maxHits, old(excerpts), added)
        && Coverage(excerpts) == Coverage(old(excerpts)) + Lines(added.path, added.start, added.end)
      ensures !included ==> excerpts == old(excerpts)
      ensures |excerpts| <= Max(|old(excerpts)|, maxHits)
    {
      var merged := Merge(added);
      if merged {
        return true;
      }
      if |excerpts| >= maxHits {
        return false;
      }
      excerpts := excerpts + [added];
      assert excerpts[..|excerpts| - 1] == old(excerpts);
      return true;
    }

    /**
     The hit loop.  The collected excerpts cover exactly the lines the processed hits
     asked for; it stops early only at a usable hit that no excerpt can take any more,
     when there is no room for another one.
     */
    method Collect(hits: seq<Hit>) returns (processed: nat)
      requires excerpts == []
      modifies this
      ensures Valid() && processed <= |hits|
      ensures Progress(excerpts, processed) == CollectFrom(files, isInstruction, maxHits, hits, Progress([], 0))
      ensures Coverage(excerpts) == Requested(files, isInstruction, hits, processed)
      ensures |excerpts| <= Max(0, maxHits)
      ensures processed < |hits| ==>
        var stopped := ExcerptFromHit(files, hits[processed]);
        && stopped.Some? && !isInstruction(stopped.value.path)
        && |excerpts| >= maxHits && !Mergeable(excerpts, stopped.value)
    {
      processed := 0;
      while processed < |hits|
        invariant Valid() && processed <= |hits|
        invariant CollectFrom(files, isInstruction, maxHits, hits, Progress(excerpts, processed))
               == CollectFrom(files, isInstruction, maxHits, hits, Progress([], 0))
        invariant Coverage(excerpts) == Requested(files, isInstruction, hits, processed)
        invariant |excerpts| <= Max(0, maxHits)
      {
        ghost var at := Progress(excerpts, processed);
        var found := ExcerptFromHit(files, hits[processed]);
        if found.Some? && !isInstruction(found.value.path) {
          var included := Include(found.value);
          if !included {
            return;
          }
        }
        processed := processed + 1;
        CollectsOn(files, isInstruction, maxHits, hits, at, Progress(excerpts, processed));
      }
    }
  }

  // --------------------------------------------------------------- disjointness

  /** No line in common. */
  predicate Apart(a: Excerpt, b: Excerpt) {
    a.path != b.path || a.end < b.start || b.end < a.start
  }

  lemma ApartMeansNoCommonLine(a: Excerpt, b: Excerpt)
    requires a.start <= a.end && b.start <= b.end
    ensures Apart(a, b) <==> Lines(a.path, a.start, a.end) !! Lines(b.path, b.start, b.end)
  {
    if !Apart(a, b) {
      var l := Max(a.start, b.start);
      assert (a.path, l) in Lines(a.path, a.start, a.end) && (b.path, l) in Lines(b.path, b.start, b.end);
    }
  }

  predicate AllApart(excerpts: seq<Excerpt>) {
    forall i, j :: 0 <= i < j < |excerpts| ==> Apart(excerpts[i], excerpts[j])
  }

  predicate NonEmpty(excerpts: seq<Excerpt>) {
    forall i :: 0 <= i < |excerpts| ==> excerpts[i].start <= excerpts[i].end
  }

  /** A joined excerpt is apart from a third one exactly when both parts are. */
  lemma JoinedApart(files: map<Path, seq<string>>, a: Excerpt, b: Excerpt, c: Excerpt)
    requires Touches(a, b) && a.start <= a.end && b.start <= b.end && c.start <= c.end
    ensures Apart(Joined(files, a, b), c) <==> Apart(a, c) && Apart(b, c)
  {
  }

  /**
   One more hit keeps the excerpts pairwise disjoint exactly when it shares no line
   with any excerpt but the one it is merged into.
   */
  lemma IncludeKeepsApartExactlyWhen(files: map<Path, seq<string>>, maxHits: int, excerpts: seq<Excerpt>,
                                     added: Excerpt)
    requires AllApart(excerpts) && NonEmpty(excerpts) && added.start <= added.end
    requires Included(files, maxHits, excerpts, added).Some?
    ensures AllApart(Included(files, maxHits, excerpts, added).value) <==>
            forall j | 0 <= j < |excerpts| && !(Mergeable(excerpts, added) && j == FirstTouched(excerpts, added, 0)) ::
              Apart(excerpts[j], added)
  {
    var more := Included(files, maxHits, excerpts, added).value;
    var i := FirstTouched(excerpts, added, 0);
    if Mergeable(excerpts, added) {
      forall j | 0 <= j < |excerpts| && j != i
        ensures Apart(more[i], more[j]) <==> Apart(excerpts[j], added)
      {
        JoinedApart(files, excerpts[i], added, excerpts[j]);
        assert Apart(excerpts[i], excerpts[j]);
      }
      if AllApart(more) {
        forall j | 0 <= j < |excerpts| && j != i ensures Apart(excerpts[j], added) {
          assert Apart(more[i], more[j]);
        }
      }
    } else {
      forall j | 0 <= j < |excerpts| ensures more[j] == excerpts[j] && more[|excerpts|] == added {
      }
    }
  }

  /** Two hits next to each other, with no more lines in all than one excerpt may have, become one excerpt. */
  lemma NearbyHitsBecomeOne(files: map<Path, seq<string>>, isInstruction: Path -> bool, maxHits: int, path: Path,
                            start: int, middle: int, end: int, a: Option<string>, b: Option<string>)
    requires path in files && !isInstruction(path) && maxHits >= 1
    requires 1 <= start <= middle < end <= |files[path]| && end - start + 1 <= MAX_EXCERPT_LINES
    ensures var hits := [Hit(Some(path), start, middle, a), Hit(Some(path), middle + 1, end, b)];
            var symbol := if a.Some? then a else b;
            CollectFrom(files, isInstruction, maxHits, hits, Progress([], 0))
              == Progress([Excerpt(path, start, end, symbol, files[path][start - 1..end])], 2)
  {
    var hits := [Hit(Some(path), start, middle, a), Hit(Some(path), middle + 1, end, b)];
    var first, second := ExcerptFromHit(files, hits[0]).value, ExcerptFromHit(files, hits[1]).value;
    var whole := Excerpt(path, start, end, if a.Some? then a else b, files[path][start - 1..end]);
    assert Included(files, maxHits, [], first) == Some([] + [first]);
    assert [] + [first] == [first];
    assert Touches(first, second) && FirstTouched([first], second, 0) == 0 && Joined(files, first, second) == whole;
    assert FitTogether(first, second) && [first][0 := whole] == [whole];
    assert Included(files, maxHits, [first], second) == Some([whole]);
    assert CollectFrom(files, isInstruction, maxHits, hits, Progress([whole], 2)) == Progress([whole], 2);
    assert CollectFrom(files, isInstruction, maxHits, hits, Progress([first], 1)) == Progress([whole], 2);
  }

  /** The loop does not keep them disjoint: two hits too far apart to be joined may still share lines. */
  lemma CollectedExcerptsMayOverlap(files: map<Path, seq<string>>, isInstruction: Path -> bool, maxHits: int,
                                    path: Path)
    requires path in files && |files[path]| >= 250 && !isInstruction(path) && maxHits >= 2
    ensures var hits := [Hit(Some(path), 1, 150, None), Hit(Some(path), 100, 250, None)];
            var end := CollectFrom(files, isInstruction, maxHits, hits, Progress([], 0));
            end.processed == 2 && |end.excerpts| == 2 && !AllApart(end.excerpts)
  {
    var hits := [Hit(Some(path), 1, 150, None), Hit(Some(path), 100, 250, None)];
    var first, second := ExcerptFromHit(files, hits[0]).value, ExcerptFromHit(files, hits[1]).value;
    assert Included(files, maxHits, [], first) == Some([] + [first]);
    assert Touches(first, second) && FirstTouched([first], second, 0) == 0;
    assert [] + [first] == [first];
    assert Included(files, maxHits, [first], second) == Some([first] + [second]);
    assert !Apart(([first] + [second])[0], ([first] + [second])[1]);
    assert CollectFrom(files, isInstruction, maxHits, hits, Progress([first] + [second], 2))
        == Progress([first] + [second], 2);
    assert CollectFrom(files, isInstruction, maxHits, hits, Progress([first], 1)) == Progress([first] + [second], 2);
  }
}
