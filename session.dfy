/**
 * The viewer's mutable `state` record (app.js:2-8) and the handlers that
 * change it: boot (app.js:37-40), the search box (app.js:56-65), the "hide
 * completed" checkbox (app.js:32-35), the sidebar grouping loop
 * (app.js:72-80), the state part of `openById` (app.js:114-118, 174-176), the
 * quiz click handler (app.js:186-199), the reset button (app.js:25-30) and the
 * progress figure (app.js:106-109). The `quiz` answers that the source keeps
 * in localStorage are the `answers` field here.
 */
module App {
  import opened Builtins
  import opened Lessons
  import opened Quiz

  class ViewerState {
    var manifest: seq<Lesson>
    var filtered: seq<Lesson>
    var current: Option<Lesson>
    var progress: Progress
    var hideComplete: bool
    var answers: map<string, int>

    /** `filtered` is always an order-preserving selection from the manifest,
        and the current lesson is one of the manifest's. */
    ghost predicate Valid()
      reads this
    {
      && IsSubsequence(filtered, manifest)
      && (current.Some? ==> current.value in manifest)
    }

    /** `boot` once the manifest has arrived: the whole manifest is shown,
        nothing is open, and progress and answers are what storage held. */
    constructor(manifest: seq<Lesson>, progress: Progress, answers: map<string, int>)
      ensures this.manifest == manifest && filtered == manifest
      ensures current == None && !hideComplete
      ensures this.progress == progress && this.answers == answers
      ensures Valid()
    {
      this.manifest := manifest;
      filtered := manifest;
      current := None;
      this.progress := progress;
      hideComplete := false;
      this.answers := answers;
      new;
      SubsequenceReflexive(manifest);
    }

    /** The "hide completed" checkbox. */
    method SetHideComplete(flag: bool)
      requires Valid()
      modifies this
      ensures hideComplete == flag
      ensures manifest == old(manifest) && filtered == old(filtered) && current == old(current)
      ensures progress == old(progress) && answers == old(answers)
      ensures Valid()
    {
      hideComplete := flag;
    }

    /** `onSearch`: the filtered view becomes the search result for `raw`. */
    method OnSearch(raw: string)
      requires Valid()
      modifies this
      ensures filtered == SearchResult(manifest, raw)
      ensures manifest == old(manifest) && current == old(current) && hideComplete == old(hideComplete)
      ensures progress == old(progress) && answers == old(answers)
      ensures Valid()
    {
      SearchKeepsOrder(manifest, raw);
      filtered := SearchResult(manifest, raw);
      assert IsSubsequence(filtered, manifest);
    }

    /** The grouping loop of `renderSidebar`: `order` lists the group keys in
        the order the loop creates them, and `groups[c]` holds the visible
        filtered lessons of category `c`, in their filtered order. */
    method GroupSidebar() returns (groups: map<string, seq<Lesson>>, order: seq<string>)
      ensures order == Categories(Visible(filtered, progress, hideComplete))
      ensures forall c :: c in groups <==> c in order
      ensures forall c :: c in groups ==> groups[c] == InCategory(Visible(filtered, progress, hideComplete), c)
    {
      groups, order := map[], [];
      var i := 0;
      while i < |filtered|
        invariant 0 <= i <= |filtered|
        invariant IsGrouping(groups, order, Visible(filtered[..i], progress, hideComplete))
      {
        var item := filtered[i];
        ghost var before := Visible(filtered[..i], progress, hideComplete);
        assert filtered[..i + 1] == filtered[..i] + [item];
        VisibleSnoc(filtered[..i], item, progress, hideComplete);
        i := i + 1;
        if hideComplete && IsDone(progress, item.id) {
          assert Visible(filtered[..i], progress, hideComplete) == before;
          continue;
        }
        var key := GroupKey(item);
        GroupingStep(groups, order, before, item);
        var group := if key in groups then groups[key] else [];
        if key !in groups {
          order := order + [key];
        }
        groups := groups[key := group + [item]];
        assert Visible(filtered[..i], progress, hideComplete) == before + [item];
      }
      assert filtered[..i] == filtered;
    }

    /** The state part of `openById`. An id the manifest lacks changes
        nothing. Otherwise the first lesson with that id becomes current, and
        once its text has been fetched and rendered (`loaded`) its progress
        entry is marked opened, keeping its done flag; no other entry changes. */
    method OpenById(id: string, loaded: bool)
      requires Valid()
      modifies this
      ensures manifest == old(manifest) && filtered == old(filtered)
      ensures hideComplete == old(hideComplete) && answers == old(answers)
      ensures FindById(manifest, id).None? ==> current == old(current) && progress == old(progress)
      ensures FindById(manifest, id).Some? ==> current == FindById(manifest, id)
      ensures FindById(manifest, id).Some? && loaded
              ==> progress == old(progress)[id := ProgressEntry(true, IsDone(old(progress), id))]
      ensures FindById(manifest, id).Some? && !loaded ==> progress == old(progress)
      ensures DoneCount(progress) == DoneCount(old(progress))
      ensures Valid()
      ensures DoneImpliesVisited(old(progress)) ==> DoneImpliesVisited(progress)
      ensures KnownIds(old(progress), manifest) ==> KnownIds(progress, manifest)
    {
      var found := FindById(manifest, id);
      if found.None? {
        return;
      }
      var item := found.value;
      current := found;
      if loaded {
        DoneCountOpen(progress, item.id);
        progress := progress[item.id := ProgressEntry(true, IsDone(progress, item.id))];
      }
    }

    /** The click handler of a quiz widget: the selected index is stored
        under the quiz's id, and a correct answer while a lesson with a
        non-empty id is open marks that lesson opened and done. A wrong answer
        leaves progress alone; no answer ever clears a done flag. */
    method AnswerQuiz(quizId: string, option: OptionView)
      requires Valid()
      modifies this
      ensures answers == old(answers)[quizId := option.index]
      ensures option.correct && current.Some? && current.value.id != ""
              ==> progress == old(progress)[current.value.id := ProgressEntry(true, true)]
      ensures !(option.correct && current.Some? && current.value.id != "") ==> progress == old(progress)
      ensures forall id :: IsDone(old(progress), id) ==> IsDone(progress, id)
      ensures manifest == old(manifest) && filtered == old(filtered)
      ensures current == old(current) && hideComplete == old(hideComplete)
      ensures Valid()
      ensures DoneImpliesVisited(old(progress)) ==> DoneImpliesVisited(progress)
      ensures KnownIds(old(progress), manifest) ==> KnownIds(progress, manifest)
    {
      answers := answers[quizId := option.index];
      if option.correct && current.Some? && current.value.id != "" {
        var cur := current.value.id;
        assert cur in IdSet(manifest);
        progress := progress[cur := ProgressEntry(true, true)];
      }
    }

    /** The reset button: once confirmed, all progress is forgotten; the
        stored quiz answers are not touched. */
    method ResetProgress(confirmed: bool)
      requires Valid()
      modifies this
      ensures progress == if confirmed then map[] else old(progress)
      ensures answers == old(answers)
      ensures manifest == old(manifest) && filtered == old(filtered)
      ensures current == old(current) && hideComplete == old(hideComplete)
      ensures Valid() && DoneImpliesVisited(progress) == (confirmed || DoneImpliesVisited(old(progress)))
    {
      if confirmed {
        progress := map[];
      }
    }

    /** The figure `renderProgress` shows. */
    method Completion() returns (r: Percent)
      ensures |manifest| == 0 ==> r == if DoneCount(progress) == 0 then NaN else Infinity
      ensures |manifest| > 0 ==> r.Whole? && IsRoundedPercent(r.value, DoneCount(progress), |manifest|)
      ensures |manifest| > 0 && KnownIds(progress, manifest) ==> 0 <= r.value <= 100
    {
      r := CompletionPercent(DoneCount(progress), |manifest|);
      if |manifest| > 0 && KnownIds(progress, manifest) {
        CompletionWithinRange(manifest, progress);
      }
    }
  }
}
