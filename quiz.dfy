/**
 * Quiz blocks (app.js:141-150). A block's body is split on `||`, each piece is
 * trimmed and empty pieces are dropped; the first piece is the question, and
 * every other piece is an option, correct exactly when it ends in `*` (one
 * trailing `*` is removed from its text). The widget shows the escaped question
 * and option labels and marks the option whose index the saved answer names.
 */
module Quiz {
  import opened Builtins
  import opened Escape

  datatype QuizOption = QuizOption(text: string, correct: bool, index: nat)

  datatype QuizBlock = QuizBlock(question: string, options: seq<QuizOption>)

  // ---------------------------------------------------------------------------
  // Parsing the body
  // ---------------------------------------------------------------------------

  /** `pieces.map(s => s.trim())` */
  function TrimAll(pieces: seq<string>): (r: seq<string>)
    ensures |r| == |pieces|
    ensures forall k :: 0 <= k < |r| ==> IsTrimmed(r[k])
  {
    seq(|pieces|, k requires 0 <= k < |pieces| => Trim(pieces[k]))
  }

  predicate NonEmpty(s: string)
  {
    s != []
  }

  /** `body.trim().split("||").map(s => s.trim()).filter(Boolean)` */
  function QuizPieces(body: string): seq<string>
  {
    Filter(TrimAll(SplitDoubleBar(Trim(body))), NonEmpty)
  }

  predicate EndsWithStar(s: string)
  {
    s != [] && s[|s| - 1] == '*'
  }

  /** `opt.replace(/\*$/, "")`: without the `m` flag `$` is the end of the
      string, so at most one trailing `*` goes. */
  function StripStar(s: string): string
  {
    if EndsWithStar(s) then s[..|s| - 1] else s
  }

  /** `{text: opt.replace(/\*$/,""), correct: /\*$/.test(opt), i}` */
  function MakeOption(piece: string, i: nat): QuizOption
  {
    QuizOption(StripStar(piece), EndsWithStar(piece), i)
  }

  /** The piece of quiz source an option is written as. */
  function OptionSource(o: QuizOption): string
  {
    o.text + (if o.correct then "*" else "")
  }

  /** Each option reads back as the piece it came from. */
  lemma MakeOptionSource(piece: string, i: nat)
    ensures OptionSource(MakeOption(piece, i)) == piece
  {
    if EndsWithStar(piece) {
      assert piece == piece[..|piece| - 1] + "*";
    }
  }

  /** `lines.map((opt, i) => …)` over the pieces after the question. */
  function OptionsOf(pieces: seq<string>): (r: seq<QuizOption>)
    ensures |r| == |pieces|
    ensures forall i :: 0 <= i < |r| ==>
              && r[i].index == i
              && (r[i].correct <==> EndsWithStar(pieces[i]))
              && OptionSource(r[i]) == pieces[i]
  {
    var r := seq(|pieces|, i requires 0 <= i < |pieces| => MakeOption(pieces[i], i));
    assert forall i :: 0 <= i < |r| ==> OptionSource(r[i]) == pieces[i] by {
      forall i | 0 <= i < |r| ensures OptionSource(r[i]) == pieces[i] {
        MakeOptionSource(pieces[i], i);
      }
    }
    r
  }

  /** The quiz a body describes, or None when the body has no non-empty piece:
      then `lines.shift()` is undefined and `escapeHtml(undefined)` throws.
      Otherwise the question is the first piece and option `i` reads back as
      piece `i + 1`, correct exactly when that piece ends in `*`. */
  function ParseQuiz(body: string): (r: Option<QuizBlock>)
    ensures r.None? <==> QuizPieces(body) == []
    ensures r.Some? ==>
      var ps := QuizPieces(body);
      && r.value.question == ps[0]
      && |r.value.options| == |ps| - 1
      && forall i :: 0 <= i < |r.value.options| ==>
           && r.value.options[i].index == i
           && (r.value.options[i].correct <==> EndsWithStar(ps[i + 1]))
           && OptionSource(r.value.options[i]) == ps[i + 1]
  {
    var ps := QuizPieces(body);
    if ps == [] then None else Some(QuizBlock(ps[0], OptionsOf(ps[1..])))
  }

  lemma NoDoubleBarInSlice(s: string, i: int, j: int)
    requires 0 <= i <= j <= |s| && !HasDoubleBar(s)
    ensures !HasDoubleBar(s[i..j])
  {
    forall k | 0 <= k < j - i ensures !BarsAt(s[i..j], k) {
      assert BarsAt(s[i..j], k) ==> BarsAt(s, i + k);
    }
  }

  lemma TrimKeepsNoDoubleBar(s: string)
    requires !HasDoubleBar(s)
    ensures !HasDoubleBar(Trim(s))
  {
    var i :| WhitespaceAround(s, i, Trim(s));
    NoDoubleBarInSlice(s, i, i + |Trim(s)|);
  }

  lemma TrimAllKeepsNoDoubleBar(split: seq<string>)
    requires forall k :: 0 <= k < |split| ==> !HasDoubleBar(split[k])
    ensures forall p :: p in TrimAll(split) ==> IsTrimmed(p) && !HasDoubleBar(p)
  {
    var trimmed := TrimAll(split);
    forall p | p in trimmed ensures IsTrimmed(p) && !HasDoubleBar(p) {
      var k :| 0 <= k < |trimmed| && trimmed[k] == p;
      TrimKeepsNoDoubleBar(split[k]);
    }
  }

  /** Every piece is non-empty, has no whitespace at either end and holds no `||`. */
  lemma QuizPiecesClean(body: string)
    ensures forall p :: p in QuizPieces(body) ==> p != [] && IsTrimmed(p) && !HasDoubleBar(p)
  {
    var split := SplitDoubleBar(Trim(body));
    TrimAllKeepsNoDoubleBar(split);
    FilterMembers(TrimAll(split), NonEmpty);
    forall p | p in QuizPieces(body) ensures p != [] && IsTrimmed(p) && !HasDoubleBar(p) {
      assert p in TrimAll(split) && NonEmpty(p);
    }
  }

  /** No piece of the split that is not blank goes missing: trimmed, it is
      among the quiz pieces. */
  lemma QuizPiecesComplete(body: string, k: nat)
    requires k < |SplitDoubleBar(Trim(body))|
    requires Trim(SplitDoubleBar(Trim(body))[k]) != []
    ensures Trim(SplitDoubleBar(Trim(body))[k]) in QuizPieces(body)
  {
    PieceKept(SplitDoubleBar(Trim(body)), k);
  }

  lemma PieceKept(split: seq<string>, k: nat)
    requires k < |split| && Trim(split[k]) != []
    ensures Trim(split[k]) in Filter(TrimAll(split), NonEmpty)
  {
    var trimmed := TrimAll(split);
    FilterMembers(trimmed, NonEmpty);
    assert trimmed[k] in trimmed;
  }

  // ---------------------------------------------------------------------------
  // Writing a quiz back as source
  // ---------------------------------------------------------------------------

  /** A piece that reads back as itself: non-empty, trimmed, with no `||`, and
      not ending in `|` (which would join the separator after it). */
  predicate IsCleanPiece(p: string)
  {
    p != [] && IsTrimmed(p) && !HasDoubleBar(p) && p[|p| - 1] != '|'
  }

  /** A quiz its own source describes: clean pieces, options numbered in order,
      and no incorrect option whose text ends in `*`. */
  predicate IsWriteable(q: QuizBlock)
  {
    && IsCleanPiece(q.question)
    && forall i :: 0 <= i < |q.options| ==>
         && q.options[i].index == i
         && IsCleanPiece(OptionSource(q.options[i]))
         && (!q.options[i].correct ==> !EndsWithStar(q.options[i].text))
  }

  function SourcePieces(q: QuizBlock): (r: seq<string>)
    ensures |r| == |q.options| + 1
  {
    [q.question] + seq(|q.options|, i requires 0 <= i < |q.options| => OptionSource(q.options[i]))
  }

  /** The body `question||option||option*||…` of a quiz block. */
  function FormatQuiz(q: QuizBlock): string
  {
    Join(SourcePieces(q), DoubleBar)
  }

  lemma {:induction false} JoinEnds(ps: seq<string>, sep: string)
    requires |ps| >= 1 && forall k :: 0 <= k < |ps| ==> ps[k] != []
    ensures var s := Join(ps, sep); s != [] && s[0] == ps[0][0] && s[|s| - 1] == ps[|ps| - 1][|ps[|ps| - 1]| - 1]
  {
    if |ps| > 1 {
      JoinEnds(ps[1..], sep);
    }
  }

  lemma PiecesOfFormat(q: QuizBlock)
    requires IsWriteable(q)
    ensures QuizPieces(FormatQuiz(q)) == SourcePieces(q)
  {
    var ps := SourcePieces(q);
    var s := FormatQuiz(q);
    assert forall k :: 0 <= k < |ps| ==> IsCleanPiece(ps[k]);
    JoinEnds(ps, DoubleBar);
    TrimOfTrimmed(s);
    SplitJoin(ps);
    assert TrimAll(ps) == ps by {
      forall k | 0 <= k < |ps| ensures Trim(ps[k]) == ps[k] { TrimOfTrimmed(ps[k]); }
    }
    FilterKeepsAll(ps, NonEmpty);
  }

  lemma OptionsOfSources(q: QuizBlock)
    requires IsWriteable(q)
    ensures OptionsOf(SourcePieces(q)[1..]) == q.options
  {
    var r := OptionsOf(SourcePieces(q)[1..]);
    forall i | 0 <= i < |q.options| ensures r[i] == q.options[i] {
      var o := q.options[i];
      assert SourcePieces(q)[1..][i] == OptionSource(o);
      if o.correct {
        assert OptionSource(o)[..|OptionSource(o)| - 1] == o.text;
      }
    }
  }

  /** Reading a written quiz gives the same quiz back. */
  lemma ParseFormat(q: QuizBlock)
    requires IsWriteable(q)
    ensures ParseQuiz(FormatQuiz(q)) == Some(q)
  {
    PiecesOfFormat(q);
    OptionsOfSources(q);
  }

  // ---------------------------------------------------------------------------
  // The rendered widget
  // ---------------------------------------------------------------------------

  /** The class an option label gets: `correct`, `incorrect` or none. */
  datatype Mark = Unmarked | MarkedCorrect | MarkedIncorrect

  /** One `<label class="option …" data-i data-c>`: the index and correctness
      the click handler reads back, the mark, and the escaped label text. */
  datatype OptionView = OptionView(index: nat, correct: bool, mark: Mark, caption: string)

  /** `<div class="quiz" data-id>` with the escaped question in `<h4>`. */
  datatype QuizWidget = QuizWidget(id: string, heading: string, options: seq<OptionView>)

  /** `answers[id] || null`: a missing entry and a stored `0` both read as null. */
  function SavedAnswer(answers: map<string, int>, id: string): Option<int>
  {
    if id in answers && answers[id] != 0 then Some(answers[id]) else None
  }

  /** `saved == o.i ? (o.correct ? "correct" : "incorrect") : ""`; null equals no index. */
  function MarkFor(saved: Option<int>, o: QuizOption): Mark
  {
    if saved.Some? && saved.value == o.index then
      (if o.correct then MarkedCorrect else MarkedIncorrect)
    else Unmarked
  }

  function ViewOption(saved: Option<int>, o: QuizOption): OptionView
  {
    OptionView(o.index, o.correct, MarkFor(saved, o), EscapeHtml(o.text))
  }

  /** The widget for a parsed quiz with instance id `id`. */
  function RenderWidget(q: QuizBlock, id: string, answers: map<string, int>): (w: QuizWidget)
    ensures w.id == id && |w.options| == |q.options|
  {
    var saved := SavedAnswer(answers, id);
    QuizWidget(id, EscapeHtml(q.question),
               seq(|q.options|, i requires 0 <= i < |q.options| => ViewOption(saved, q.options[i])))
  }

  /** The widget for one quiz block with instance id `id`; None where the
      source throws. */
  function RenderQuiz(body: string, id: string, answers: map<string, int>): (r: Option<QuizWidget>)
    ensures r.None? <==> QuizPieces(body) == []
    ensures r.Some? ==> r.value.id == id && |r.value.options| == |QuizPieces(body)| - 1
  {
    match ParseQuiz(body)
    case None => None
    case Some(q) => Some(RenderWidget(q, id, answers))
  }

  /** The widget shows the quiz: the heading and labels decode to the question
      and option texts and hold no markup characters, and each option view
      carries its option's index and correctness. */
  lemma WidgetShowsQuiz(q: QuizBlock, id: string, answers: map<string, int>)
    ensures var w := RenderWidget(q, id, answers);
            && UnescapeHtml(w.heading) == q.question && NoMarkupChars(w.heading)
            && forall i :: 0 <= i < |w.options| ==>
                 && w.options[i].index == q.options[i].index
                 && w.options[i].correct == q.options[i].correct
                 && UnescapeHtml(w.options[i].caption) == q.options[i].text
                 && NoMarkupChars(w.options[i].caption)
  {
    UnescapeEscape(q.question);
    forall i | 0 <= i < |q.options| ensures UnescapeHtml(EscapeHtml(q.options[i].text)) == q.options[i].text {
      UnescapeEscape(q.options[i].text);
    }
  }

  /** A body with a non-empty piece renders as the widget of its parsed quiz. */
  lemma RenderQuizOf(body: string, id: string, answers: map<string, int>)
    requires QuizPieces(body) != []
    ensures ParseQuiz(body).Some?
    ensures RenderQuiz(body, id, answers) == Some(RenderWidget(ParseQuiz(body).value, id, answers))
  {
  }

  /** The widget of a parsed body shows the parsed quiz, options numbered from 0. */
  lemma RenderShowsQuiz(body: string, id: string, answers: map<string, int>)
    requires QuizPieces(body) != []
    ensures var w := RenderQuiz(body, id, answers).value;
            var q := ParseQuiz(body).value;
            && UnescapeHtml(w.heading) == q.question && NoMarkupChars(w.heading)
            && forall i :: 0 <= i < |w.options| ==>
                 && w.options[i].index == q.options[i].index == i
                 && w.options[i].correct == q.options[i].correct
                 && UnescapeHtml(w.options[i].caption) == q.options[i].text
                 && NoMarkupChars(w.options[i].caption)
  {
    WidgetShowsQuiz(ParseQuiz(body).value, id, answers);
  }

  /** Exactly the option whose index equals a saved non-zero answer is marked,
      as correct when the option is correct and as incorrect otherwise. */
  lemma WidgetMarks(q: QuizBlock, id: string, answers: map<string, int>, i: nat)
    requires i < |q.options|
    ensures var o := RenderWidget(q, id, answers).options[i];
            && (o.mark != Unmarked <==> id in answers && answers[id] != 0 && answers[id] == q.options[i].index)
            && (o.mark == MarkedCorrect <==> o.mark != Unmarked && q.options[i].correct)
  {
  }

  /** In a rendered block, option `i` is marked exactly when the saved answer
      is non-zero and equals `i`. */
  lemma MarkedOption(body: string, id: string, answers: map<string, int>, i: nat)
    requires QuizPieces(body) != []
    requires i < |QuizPieces(body)| - 1
    ensures var o := RenderQuiz(body, id, answers).value.options[i];
            && (o.mark != Unmarked <==> id in answers && answers[id] != 0 && answers[id] == i)
            && (o.mark == MarkedCorrect <==> o.mark != Unmarked && o.correct)
  {
    var q := ParseQuiz(body).value;
    RenderQuizOf(body, id, answers);
    assert q.options[i].index == i;
    WidgetMarks(q, id, answers, i);
  }

  /** A saved answer of 0 reads as null, so it marks nothing. */
  lemma WidgetZeroMarksNothing(q: QuizBlock, id: string, answers: map<string, int>)
    requires id in answers && answers[id] == 0
    ensures forall i :: 0 <= i < |RenderWidget(q, id, answers).options| ==>
              RenderWidget(q, id, answers).options[i].mark == Unmarked
  {
    assert SavedAnswer(answers, id) == None;
  }

  /** In a rendered block a saved 0 marks no option, not even the first,
      which it names. */
  lemma SavedZeroMarksNothing(body: string, id: string, answers: map<string, int>)
    requires QuizPieces(body) != []
    requires id in answers && answers[id] == 0
    ensures forall i :: 0 <= i < |RenderQuiz(body, id, answers).value.options| ==>
              RenderQuiz(body, id, answers).value.options[i].mark == Unmarked
  {
    RenderQuizOf(body, id, answers);
    WidgetZeroMarksNothing(ParseQuiz(body).value, id, answers);
  }

  /** Hence the first option is never shown as answered, whatever is saved. */
  lemma FirstOptionNeverMarked(body: string, id: string, answers: map<string, int>)
    requires |QuizPieces(body)| >= 2
    ensures RenderQuiz(body, id, answers).value.options[0].mark == Unmarked
  {
    var q := ParseQuiz(body).value;
    RenderQuizOf(body, id, answers);
    assert q.options[0].index == 0;
    WidgetMarks(q, id, answers, 0);
  }
}
