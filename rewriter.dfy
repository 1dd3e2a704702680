/**
 * The comment visitor of CSharpCommentRewriter: a cache from raw comment
 * text to its rewrite, replayed on a hit and extended after each edit, and a
 * stop flag that an empty edit confirmed with "y" latches for the rest of
 * the run.
 *
 * The editor is a function from the text it is shown to the text it hands
 * back; the answer typed at the stop prompt is a string parameter.
 */
module CommentRewriting {
  import opened Wrappers
  import opened Text
  import opened Padding

  /** The trivia kinds the rewriter tells apart. */
  datatype TriviaKind = SingleLineDocumentationComment | SingleLineComment | OtherTrivia

  /** A piece of trivia of the syntax tree with its full text. */
  datatype Trivia = Trivia(kind: TriviaKind, text: string)

  /** The rewriter's two fields: the rewrite cache and the stop flag. */
  datatype RewriterState = RewriterState(backup: map<string, string>, isStopping: bool)

  /**
   * The outcome of visiting one trivia: the trivia that replaces it, the
   * rewriter's new state, and the text the editor was shown, if it was run.
   */
  datatype Visited = Visited(result: Trivia, state: RewriterState, shown: Option<string>)

  /** The stop prompt's test: the answer, trimmed and lower-cased, is "y". */
  predicate IsYes(response: string) {
    ToLower(Trim(response)) == "y"
  }

  /** Every entry of `m` is in `m'` with the same value. */
  ghost predicate Extends(m: map<string, string>, m': map<string, string>) {
    m.Keys <= m'.Keys && forall k :: k in m ==> m'[k] == m[k]
  }

  /** VisitTrivia as a function of the state before the visit. */
  function Visit(s: RewriterState, trivia: Trivia, editor: string -> string, response: string)
    : (r: Result<Visited, RewriteError>)
    ensures r.Failure? ==> !s.isStopping && trivia.kind == SingleLineDocumentationComment && trivia.text !in s.backup
    ensures r.Success? && r.value.shown.None? ==> r.value.state == s
  {
    if s.isStopping || trivia.kind != SingleLineDocumentationComment then
      Success(Visited(trivia, s, None))
    else if trivia.text in s.backup then
      Success(Visited(Trivia(SingleLineComment, s.backup[trivia.text]), s, None))
    else
      match Decompose(trivia.text)
      case Failure(e) => Failure(e)
      case Success(tuples) =>
        var xml := EditorText(tuples);
        var rewritten := editor(xml);
        if IsNullOrWhiteSpace(rewritten) then
          Success(Visited(trivia, RewriterState(s.backup, IsYes(response)), Some(xml)))
        else
          var rewrittenComment := Recompose(FirstPad(tuples), SecondPad(tuples), rewritten);
          Success(Visited(Trivia(SingleLineComment, rewrittenComment),
                          RewriterState(s.backup[trivia.text := rewrittenComment], false), Some(xml)))
  }

  /** Only "y" and "Y", with any whitespace around them, confirm the stop. */
  lemma IsYesMeans(response: string)
    ensures IsYes(response) <==> Trim(response) == "y" || Trim(response) == "Y"
  {
    var t := Trim(response);
    if |t| == 1 {
      assert ToLower(t)[0] == ToLowerChar(t[0]);
      if t[0] == 'y' || t[0] == 'Y' {
        assert ToLower(t) == [ToLowerChar(t[0])];
      }
    }
  }

  /** A stopped rewriter hands back every trivia as it is and keeps its state. */
  lemma StopLatches(s: RewriterState, trivia: Trivia, editor: string -> string, response: string)
    requires s.isStopping
    ensures Visit(s, trivia, editor, response) == Success(Visited(trivia, s, None))
  {
  }

  /** Trivia other than a doc comment pass through untouched. */
  lemma OtherTriviaUntouched(s: RewriterState, trivia: Trivia, editor: string -> string, response: string)
    requires trivia.kind != SingleLineDocumentationComment
    ensures Visit(s, trivia, editor, response) == Success(Visited(trivia, s, None))
  {
  }

  /** A cached comment is replayed verbatim: no editor, no change of state. */
  lemma CacheHitReplays(s: RewriterState, trivia: Trivia, editor: string -> string, response: string)
    requires !s.isStopping && trivia.kind == SingleLineDocumentationComment
    requires trivia.text in s.backup
    ensures Visit(s, trivia, editor, response)
         == Success(Visited(Trivia(SingleLineComment, s.backup[trivia.text]), s, None))
  {
  }

  /** A visit fails exactly when an uncached doc comment has a line without `///`. */
  lemma VisitFailsOnlyWhenMalformed(s: RewriterState, trivia: Trivia, editor: string -> string, response: string)
    ensures Visit(s, trivia, editor, response).Failure?
        <==> && !s.isStopping
             && trivia.kind == SingleLineDocumentationComment
             && trivia.text !in s.backup
             && Decompose(trivia.text).Failure?
  {
  }

  /** The editor is run only for an uncached doc comment while not stopping, and is shown its contents. */
  lemma EditorOnlyOnMiss(s: RewriterState, trivia: Trivia, editor: string -> string, response: string)
    requires Visit(s, trivia, editor, response).Success?
    requires Visit(s, trivia, editor, response).value.shown.Some?
    ensures !s.isStopping && trivia.kind == SingleLineDocumentationComment && trivia.text !in s.backup
    ensures Decompose(trivia.text).Success?
    ensures Visit(s, trivia, editor, response).value.shown.value == EditorText(Decompose(trivia.text).value)
  {
  }

  /**
   * The cache only grows, by at most the visited raw text, and an existing
   * entry is never changed; the stop flag is never cleared.
   */
  lemma VisitGrowsBackup(s: RewriterState, trivia: Trivia, editor: string -> string, response: string)
    requires Visit(s, trivia, editor, response).Success?
    ensures var s' := Visit(s, trivia, editor, response).value.state;
      && Extends(s.backup, s'.backup)
      && s'.backup.Keys <= s.backup.Keys + {trivia.text}
      && (s.isStopping ==> s'.isStopping)
  {
  }

  /**
   * A non-empty edit records exactly one new entry, from the raw comment to
   * the re-padded rewrite, and replaces the trivia with that rewrite.
   */
  lemma EditRecordsOneEntry(s: RewriterState, trivia: Trivia, editor: string -> string, response: string)
    requires Visit(s, trivia, editor, response).Success?
    requires var v := Visit(s, trivia, editor, response).value;
      v.shown.Some? && !IsNullOrWhiteSpace(editor(v.shown.value))
    ensures var v := Visit(s, trivia, editor, response).value;
      var tuples := Decompose(trivia.text).value;
      && trivia.text !in s.backup
      && v.result == Trivia(SingleLineComment, Recompose(FirstPad(tuples), SecondPad(tuples), editor(v.shown.value)))
      && v.state.backup == s.backup[trivia.text := v.result.text]
      && |v.state.backup| == |s.backup| + 1
      && !v.state.isStopping
  {
  }

  /**
   * An empty edit keeps the original trivia and the cache; it stops the
   * rewriter exactly when the answer is "y".
   */
  lemma EmptyEditKeepsComment(s: RewriterState, trivia: Trivia, editor: string -> string, response: string)
    requires Visit(s, trivia, editor, response).Success?
    requires var v := Visit(s, trivia, editor, response).value;
      v.shown.Some? && IsNullOrWhiteSpace(editor(v.shown.value))
    ensures var v := Visit(s, trivia, editor, response).value;
      && v.result == trivia
      && v.state.backup == s.backup
      && v.state.isStopping == IsYes(response)
  {
  }

  /**
   * A one-line doc comment has no second pad, so when the edit spans several
   * lines every line after the head comes back with no pad at all: no
   * indentation and no `///`.
   */
  lemma OneLineCommentLosesMarker(s: RewriterState, trivia: Trivia, editor: string -> string, response: string)
    requires !s.isStopping && trivia.kind == SingleLineDocumentationComment && trivia.text !in s.backup
    requires Decompose(trivia.text).Success? && |Decompose(trivia.text).value| == 1
    requires !IsNullOrWhiteSpace(editor(EditorText(Decompose(trivia.text).value)))
    ensures Visit(s, trivia, editor, response).Success?
    ensures var t := Decompose(trivia.text).value;
      var e := Lines(editor(EditorText(t)));
      var out := Lines(Visit(s, trivia, editor, response).value.result.text);
      && |out| == |e|
      && out[0] == t[0].pad + e[0]
      && forall i :: 1 <= i < |e| ==> out[i] == e[i]
  {
    var t := Decompose(trivia.text).value;
    var edited := editor(EditorText(t));
    PadLineTuplesSplit(Lines(trivia.text));
    assert Lines(trivia.text)[0] == t[0].pad + t[0].content;
    assert NewLine !in t[0].pad;
    RecomposeLines(t[0].pad, "", edited);
    var e := Lines(edited);
    forall i | 1 <= i < |e| ensures "" + e[i] == e[i] { }
  }

  /**
   * An editor that hands back what it was shown leaves a uniformly indented,
   * terminated comment as it was, and the cache maps it to itself.
   */
  lemma IdentityEditKeepsText(s: RewriterState, trivia: Trivia, editor: string -> string, response: string)
    requires !s.isStopping && trivia.kind == SingleLineDocumentationComment && trivia.text !in s.backup
    requires EndsWithNewLine(trivia.text)
    requires var d := Decompose(trivia.text);
      d.Success? && forall i :: 1 <= i < |d.value| ==> d.value[i].pad == d.value[1].pad
    requires var body := EditorText(Decompose(trivia.text).value);
      editor(body) == body && !IsNullOrWhiteSpace(body)
    ensures Visit(s, trivia, editor, response).Success?
    ensures var v := Visit(s, trivia, editor, response).value;
      && v.result == Trivia(SingleLineComment, trivia.text)
      && v.state.backup == s.backup[trivia.text := trivia.text]
  {
    IdentityEditRoundTrip(trivia.text);
  }

  /** The outcome of visiting a list of trivia in order. */
  datatype Pass = Pass(output: seq<Trivia>, state: RewriterState, shown: seq<string>)

  function ShownText(o: Option<string>): seq<string> {
    if o.Some? then [o.value] else []
  }

  /**
   * Visiting every trivia of one file in order; `answer` gives the reply
   * typed at the stop prompt for a raw comment. A malformed comment aborts.
   */
  function VisitAll(s: RewriterState, ts: seq<Trivia>, editor: string -> string, answer: string -> string)
    : (r: Result<Pass, RewriteError>)
    ensures r.Success? ==> |r.value.output| == |ts|
    ensures r.Success? ==> Extends(s.backup, r.value.state.backup)
    ensures r.Success? && s.isStopping ==> r.value.state.isStopping
    decreases |ts|
  {
    if ts == [] then Success(Pass([], s, []))
    else
      match Visit(s, ts[0], editor, answer(ts[0].text))
      case Failure(e) => Failure(e)
      case Success(v) =>
        VisitGrowsBackup(s, ts[0], editor, answer(ts[0].text));
        match VisitAll(v.state, ts[1..], editor, answer)
        case Failure(e) => Failure(e)
        case Success(p) => Success(Pass([v.result] + p.output, p.state, ShownText(v.shown) + p.shown))
  }

  /** Once stopped, a whole file comes out as it went in, and nothing is shown to the editor. */
  lemma {:induction false} VisitAllWhileStopping(s: RewriterState, ts: seq<Trivia>,
                                                 editor: string -> string, answer: string -> string)
    requires s.isStopping
    ensures VisitAll(s, ts, editor, answer) == Success(Pass(ts, s, []))
  {
    if ts != [] {
      StopLatches(s, ts[0], editor, answer(ts[0].text));
      VisitAllWhileStopping(s, ts[1..], editor, answer);
      assert ShownText(None) + [] == [];
      assert [ts[0]] + ts[1..] == ts;
    }
  }

  /**
   * One trivia visited again, from any state whose cache extends the one
   * its first visit left and whose stop flag is unchanged, is replayed.
   */
  lemma VisitAgainReplays(s: RewriterState, t: Trivia, editor: string -> string, response: string,
                          s2: RewriterState, editor': string -> string, response': string)
    requires Visit(s, t, editor, response).Success?
    requires var v := Visit(s, t, editor, response).value;
      v.shown.Some? ==> !IsNullOrWhiteSpace(editor(v.shown.value))
    requires Extends(Visit(s, t, editor, response).value.state.backup, s2.backup)
    requires s2.isStopping == s.isStopping
    ensures var v := Visit(s, t, editor, response).value;
      Visit(s2, t, editor', response') == Success(Visited(v.result, s2, None))
      && v.state.isStopping == s.isStopping
  {
    var v := Visit(s, t, editor, response).value;
    if v.shown.Some? {
      EditRecordsOneEntry(s, t, editor, response);
    }
  }

  /**
   * Visiting the same trivia a second time, with the cache the first pass
   * left, runs no editor and yields the same output, provided no edit in the
   * first pass came back empty.
   */
  lemma {:induction false} ReplayIsIdempotent(s: RewriterState, ts: seq<Trivia>,
                                              editor: string -> string, answer: string -> string,
                                              editor': string -> string, answer': string -> string)
    requires VisitAll(s, ts, editor, answer).Success?
    requires var p := VisitAll(s, ts, editor, answer).value;
      forall i :: 0 <= i < |p.shown| ==> !IsNullOrWhiteSpace(editor(p.shown[i]))
    ensures var p := VisitAll(s, ts, editor, answer).value;
      && VisitAll(p.state, ts, editor', answer') == Success(Pass(p.output, p.state, []))
      && p.state.isStopping == s.isStopping
    decreases |ts|
  {
    var p := VisitAll(s, ts, editor, answer).value;
    if ts == [] {
    } else {
      var t := ts[0];
      var v := Visit(s, t, editor, answer(t.text)).value;
      var p' := VisitAll(v.state, ts[1..], editor, answer).value;
      assert p.shown == ShownText(v.shown) + p'.shown;
      assert p.output == [v.result] + p'.output;
      assert p.state == p'.state;
      forall i | 0 <= i < |p'.shown| ensures !IsNullOrWhiteSpace(editor(p'.shown[i])) {
        assert p'.shown[i] == p.shown[|ShownText(v.shown)| + i];
      }
      if v.shown.Some? {
        assert p.shown[0] == v.shown.value;
      }
      ReplayIsIdempotent(v.state, ts[1..], editor, answer, editor', answer');
      VisitAgainReplays(s, t, editor, answer(t.text), p.state, editor', answer'(t.text));
      VisitAllUnfold(p.state, ts, editor', answer');
      assert VisitAll(p.state, ts[1..], editor', answer') == Success(Pass(p'.output, p.state, []));
      assert ShownText(None) + [] == [];
    }
  }

  /**
   * What a run over several files wrote back, the rewriter's state after
   * each file it visited, and its final state.
   */
  datatype Run = Run(written: seq<seq<Trivia>>, after: seq<RewriterState>, state: RewriterState)

  /**
   * The loop over the input files: before each file, a stopped rewriter
   * ends the run; otherwise the file is visited and written back.
   */
  function RunFiles(s: RewriterState, files: seq<seq<Trivia>>, editor: string -> string, answer: string -> string)
    : (r: Result<Run, RewriteError>)
    ensures r.Success? ==> |r.value.after| == |r.value.written| <= |files|
    ensures r.Success? ==> forall i :: 0 <= i < |r.value.written| ==> |r.value.written[i]| == |files[i]|
    ensures r.Success? && |r.value.written| < |files| ==> r.value.state.isStopping
    ensures r.Success? && s.isStopping ==> r.value.written == [] && r.value.state == s
    ensures r.Success? ==> Extends(s.backup, r.value.state.backup)
    decreases |files|
  {
    if files == [] || s.isStopping then Success(Run([], [], s))
    else
      match VisitAll(s, files[0], editor, answer)
      case Failure(e) => Failure(e)
      case Success(p) =>
        match RunFiles(p.state, files[1..], editor, answer)
        case Failure(e) => Failure(e)
        case Success(run) => Success(Run([p.output] + run.written, [p.state] + run.after, run.state))
  }

  /** The state file i of a run was visited from: the initial one, or the one the file before left. */
  function StateBefore(s: RewriterState, run: Run, i: nat): RewriterState
    requires i <= |run.after|
  {
    if i == 0 then s else run.after[i - 1]
  }

  /** File i of the run was visited from the state before it, wrote back run.written[i] and left run.after[i]. */
  ghost predicate FileVisited(s: RewriterState, files: seq<seq<Trivia>>, run: Run, i: nat,
                              editor: string -> string, answer: string -> string)
    requires i < |run.written| <= |files| && |run.after| == |run.written|
  {
    Passes(StateBefore(s, run, i), files[i], run.written[i], run.after[i], editor, answer)
  }

  /** The pass over ts from s succeeds, writes back output and leaves after. */
  ghost predicate Passes(s: RewriterState, ts: seq<Trivia>, output: seq<Trivia>, after: RewriterState,
                         editor: string -> string, answer: string -> string)
  {
    var p := VisitAll(s, ts, editor, answer);
    p.Success? && p.value.output == output && p.value.state == after
  }

  /** File i of a run visited file i - 1 of the run over the files after the first. */
  lemma FileVisitedLater(s: RewriterState, files: seq<seq<Trivia>>, output: seq<Trivia>, first: RewriterState,
                         rest: Run, i: nat, editor: string -> string, answer: string -> string)
    requires 0 < i <= |rest.written| < |files| && |rest.after| == |rest.written|
    requires FileVisited(first, files[1..], rest, i - 1, editor, answer)
    ensures FileVisited(s, files, Run([output] + rest.written, [first] + rest.after, rest.state), i, editor, answer)
  {
    var run := Run([output] + rest.written, [first] + rest.after, rest.state);
    assert StateBefore(s, run, i) == StateBefore(first, rest, i - 1);
    assert files[i] == files[1..][i - 1];
    assert run.written[i] == rest.written[i - 1] && run.after[i] == rest.after[i - 1];
  }

  /**
   * The file loop visits each file from the state the file before left; it
   * goes on to the next file exactly when that state is not stopping: a
   * stopped rewriter visits no file, no file but the last visited one left
   * the flag set, and fewer files are visited only when the flag is set.
   */
  lemma RunFilesStops(s: RewriterState, files: seq<seq<Trivia>>, editor: string -> string, answer: string -> string)
    requires RunFiles(s, files, editor, answer).Success?
    ensures var run := RunFiles(s, files, editor, answer).value;
      && (s.isStopping ==> run.written == [])
      && (forall i :: 0 <= i < |run.written| ==> FileVisited(s, files, run, i, editor, answer))
      && (forall i :: 0 <= i < |run.written| - 1 ==> !run.after[i].isStopping)
      && (|run.written| < |files| ==> run.state.isStopping)
      && run.state == StateBefore(s, run, |run.after|)
  {
    RunFilesVisitsEach(s, files, editor, answer);
    RunFilesGoesOn(s, files, editor, answer);
  }

  /** Each file is visited from the state the file before left, and the run ends in the last of those states. */
  lemma {:induction false} RunFilesVisitsEach(s: RewriterState, files: seq<seq<Trivia>>,
                                              editor: string -> string, answer: string -> string)
    requires RunFiles(s, files, editor, answer).Success?
    ensures var run := RunFiles(s, files, editor, answer).value;
      && (forall i :: 0 <= i < |run.written| ==> FileVisited(s, files, run, i, editor, answer))
      && run.state == StateBefore(s, run, |run.after|)
    decreases |files|
  {
    var run := RunFiles(s, files, editor, answer).value;
    if files != [] && !s.isStopping {
      var p := VisitAll(s, files[0], editor, answer).value;
      var rest := RunFiles(p.state, files[1..], editor, answer).value;
      RunFilesVisitsEach(p.state, files[1..], editor, answer);
      assert run == Run([p.output] + rest.written, [p.state] + rest.after, rest.state);
      forall i | 0 <= i < |run.written| ensures FileVisited(s, files, run, i, editor, answer) {
        if i > 0 {
          FileVisitedLater(s, files, p.output, p.state, rest, i, editor, answer);
        }
      }
    }
  }

  /** The loop goes on past a file only when that file left the flag clear, and stops early only when it is set. */
  lemma {:induction false} RunFilesGoesOn(s: RewriterState, files: seq<seq<Trivia>>,
                                          editor: string -> string, answer: string -> string)
    requires RunFiles(s, files, editor, answer).Success?
    ensures var run := RunFiles(s, files, editor, answer).value;
      && (s.isStopping ==> run.written == [])
      && (forall i :: 0 <= i < |run.written| - 1 ==> !run.after[i].isStopping)
      && (|run.written| < |files| ==> run.state.isStopping)
    decreases |files|
  {
    var run := RunFiles(s, files, editor, answer).value;
    if files != [] && !s.isStopping {
      var p := VisitAll(s, files[0], editor, answer).value;
      var rest := RunFiles(p.state, files[1..], editor, answer).value;
      RunFilesGoesOn(p.state, files[1..], editor, answer);
      assert run == Run([p.output] + rest.written, [p.state] + rest.after, rest.state);
      forall i | 0 <= i < |run.written| - 1 ensures !run.after[i].isStopping {
        if i > 0 {
          assert run.after[i] == rest.after[i - 1];
        }
      }
    }
  }

  /** A pass over a non-empty file visits its first trivia and then passes over the rest. */
  lemma VisitAllUnfold(s: RewriterState, ts: seq<Trivia>, editor: string -> string, answer: string -> string)
    requires ts != []
    ensures VisitAll(s, ts, editor, answer)
      == match Visit(s, ts[0], editor, answer(ts[0].text))
         case Failure(e) => Failure(e)
         case Success(v) => ThenPass([v.result], ShownText(v.shown), VisitAll(v.state, ts[1..], editor, answer))
  {
  }

  /** Output already made can be prepended in one step or two. */
  lemma ThenPassTwice(o1: seq<Trivia>, sh1: seq<string>, o2: seq<Trivia>, sh2: seq<string>,
                      r: Result<Pass, RewriteError>)
    ensures ThenPass(o1, sh1, ThenPass(o2, sh2, r)) == ThenPass(o1 + o2, sh1 + sh2, r)
  {
    if r.Success? {
      assert o1 + (o2 + r.value.output) == (o1 + o2) + r.value.output;
      assert sh1 + (sh2 + r.value.shown) == (sh1 + sh2) + r.value.shown;
    }
  }

  /** A pass over a + b is the pass over a followed by the pass over b, from the state a left. */
  lemma {:induction false} VisitAllAppend(s: RewriterState, a: seq<Trivia>, b: seq<Trivia>,
                                          editor: string -> string, answer: string -> string)
    ensures var q := VisitAll(s, a, editor, answer);
      VisitAll(s, a + b, editor, answer)
        == if q.Failure? then Failure(q.error)
           else ThenPass(q.value.output, q.value.shown, VisitAll(q.value.state, b, editor, answer))
    decreases |a|
  {
    if a == [] {
      assert a + b == b;
      var r := VisitAll(s, b, editor, answer);
      if r.Success? {
        assert [] + r.value.output == r.value.output && [] + r.value.shown == r.value.shown;
      }
    } else {
      assert (a + b)[0] == a[0] && (a + b)[1..] == a[1..] + b;
      VisitAllUnfold(s, a + b, editor, answer);
      VisitAllUnfold(s, a, editor, answer);
      var v := Visit(s, a[0], editor, answer(a[0].text));
      if v.Success? {
        VisitAllAppend(v.value.state, a[1..], b, editor, answer);
        var q := VisitAll(v.value.state, a[1..], editor, answer);
        if q.Success? {
          ThenPassTwice([v.value.result], ShownText(v.value.shown), q.value.output, q.value.shown,
                        VisitAll(q.value.state, b, editor, answer));
        }
      }
    }
  }

  /** A pass over a file is the pass over its first j trivia followed by the pass over the rest. */
  lemma VisitAllSplit(s: RewriterState, ts: seq<Trivia>, j: nat, editor: string -> string, answer: string -> string)
    requires j <= |ts|
    ensures var q := VisitAll(s, ts[..j], editor, answer);
      VisitAll(s, ts, editor, answer)
        == if q.Failure? then Failure(q.error)
           else ThenPass(q.value.output, q.value.shown, VisitAll(q.value.state, ts[j..], editor, answer))
  {
    assert ts == ts[..j] + ts[j..];
    VisitAllAppend(s, ts[..j], ts[j..], editor, answer);
  }

  /**
   * Once a visit in the middle of a file sets the stop flag, the rest of
   * that file is written back unchanged and nothing more is shown to the
   * editor.
   */
  lemma StopMidFile(s: RewriterState, ts: seq<Trivia>, j: nat, editor: string -> string, answer: string -> string)
    requires j <= |ts|
    requires VisitAll(s, ts[..j], editor, answer).Success?
    requires VisitAll(s, ts[..j], editor, answer).value.state.isStopping
    ensures var q := VisitAll(s, ts[..j], editor, answer).value;
      VisitAll(s, ts, editor, answer) == Success(Pass(q.output + ts[j..], q.state, q.shown))
  {
    var q := VisitAll(s, ts[..j], editor, answer).value;
    VisitAllSplit(s, ts, j, editor, answer);
    VisitAllWhileStopping(q.state, ts[j..], editor, answer);
    assert q.shown + [] == q.shown;
  }

  /**
   * An empty edit confirmed with "y", of an uncached comment of the first
   * file, whatever trivia come before it: the run stops, the comment and
   * the rest of its file are written back unchanged, no later file is
   * visited, and the cache is kept as it was for saving.
   */
  lemma EmptyEditStopsRun(s: RewriterState, before: seq<Trivia>, t: Trivia, rest: seq<Trivia>,
                          more: seq<seq<Trivia>>, editor: string -> string, answer: string -> string)
    requires VisitAll(s, before, editor, answer).Success?
    requires var q := VisitAll(s, before, editor, answer).value.state;
      && !q.isStopping && t.kind == SingleLineDocumentationComment && t.text !in q.backup
      && Decompose(t.text).Success?
      && IsNullOrWhiteSpace(editor(EditorText(Decompose(t.text).value)))
      && IsYes(answer(t.text))
    ensures var q := VisitAll(s, before, editor, answer).value;
      var stopped := RewriterState(q.state.backup, true);
      RunFiles(s, [before + [t] + rest] + more, editor, answer)
        == Success(Run([q.output + [t] + rest], [stopped], stopped))
  {
    var q := VisitAll(s, before, editor, answer).value;
    var stopped := RewriterState(q.state.backup, true);
    var xml := EditorText(Decompose(t.text).value);
    var file := before + [t] + rest;
    var n := |before|;
    assert Visit(q.state, t, editor, answer(t.text)) == Success(Visited(t, stopped, Some(xml)));
    assert VisitAll(stopped, [], editor, answer) == Success(Pass([], stopped, []));
    assert [t][0] == t && [t][1..] == [];
    assert ShownText(Some(xml)) + [] == [xml] && [t] + [] == [t];
    assert VisitAll(q.state, [t], editor, answer) == Success(Pass([t], stopped, [xml]));
    assert file[..n + 1] == before + [t];
    assert (before + [t])[..n] == before && (before + [t])[n..] == [t];
    VisitAllSplit(s, before + [t], n, editor, answer);
    assert VisitAll(s, file[..n + 1], editor, answer) == Success(Pass(q.output + [t], stopped, q.shown + [xml]));
    StopMidFile(s, file, n + 1, editor, answer);
    assert file[n + 1..] == rest;
    assert !s.isStopping;
    assert ([file] + more)[0] == file && ([file] + more)[1..] == more;
    assert RunFiles(stopped, more, editor, answer) == Success(Run([], [], stopped));
    assert [q.output + [t] + rest] + [] == [q.output + [t] + rest];
    assert [stopped] + [] == [stopped];
  }

  /** The rewriter object: the cache it was given and the stop flag. */
  class CommentRewriter {
    var Backup: map<string, string>
    var IsStopping: bool

    constructor (commentBackup: map<string, string>)
      ensures Backup == commentBackup && !IsStopping
    {
      Backup := commentBackup;
      IsStopping := false;
    }

    function State(): RewriterState
      reads this
    {
      RewriterState(Backup, IsStopping)
    }

    /** Visits one trivia, replacing a doc comment by its cached or freshly edited rewrite. */
    method VisitTrivia(trivia: Trivia, editor: string -> string, response: string)
      returns (r: Result<Trivia, RewriteError>)
      modifies this
      ensures var v := Visit(old(State()), trivia, editor, response);
        && (v.Success? ==> r == Success(v.value.result) && State() == v.value.state)
        && (v.Failure? ==> r == Failure(v.error) && State() == old(State()))
      ensures Extends(old(Backup), Backup)
      ensures old(IsStopping) ==> IsStopping && r == Success(trivia) && Backup == old(Backup)
    {
      if IsStopping || trivia.kind != SingleLineDocumentationComment {
        return Success(trivia);
      }
      var rawComment := trivia.text;
      if rawComment in Backup {
        return Success(Trivia(SingleLineComment, Backup[rawComment]));
      }
      var padLineTuples := Decompose(rawComment);
      if padLineTuples.Failure? {
        return Failure(padLineTuples.error);
      }
      var xml := EditorText(padLineTuples.value);
      var rewritten := editor(xml);
      if IsNullOrWhiteSpace(rewritten) {
        if IsYes(response) {
          IsStopping := true;
        }
        return Success(trivia);
      }
      var tuples := padLineTuples.value;
      var rewrittenComment := Recompose(FirstPad(tuples), SecondPad(tuples), rewritten);
      Backup := Backup[rawComment := rewrittenComment];
      return Success(Trivia(SingleLineComment, rewrittenComment));
    }

    /** Visits the trivia of one file in order, aborting at a malformed comment. */
    method VisitFile(file: seq<Trivia>, editor: string -> string, answer: string -> string)
      returns (r: Result<seq<Trivia>, RewriteError>)
      modifies this
      ensures var pass := VisitAll(old(State()), file, editor, answer);
        && (r.Success? <==> pass.Success?)
        && (pass.Success? ==> r.value == pass.value.output && State() == pass.value.state)
    {
      ghost var start := State();
      var output: seq<Trivia> := [];
      ghost var shown: seq<string> := [];
      var j := 0;
      PassFrom(start, file, editor, answer);
      while j < |file|
        invariant 0 <= j <= |file|
        invariant VisitAll(start, file, editor, answer)
               == ThenPass(output, shown, VisitAll(State(), file[j..], editor, answer))
      {
        ghost var v := Visit(State(), file[j], editor, answer(file[j].text));
        PassStep(output, shown, State(), file, j, editor, answer);
        var res := VisitTrivia(file[j], editor, answer(file[j].text));
        if res.Failure? {
          return Failure(res.error);
        }
        output := output + [res.value];
        shown := shown + ShownText(v.value.shown);
        j := j + 1;
      }
      PassDone(output, shown, State(), file, editor, answer);
      return Success(output);
    }

    /**
     * Visits the trivia of each file in turn, stopping before the next file
     * once the stop flag is set; yields the trivia written back per file.
     */
    method VisitFiles(files: seq<seq<Trivia>>, editor: string -> string, answer: string -> string)
      returns (r: Result<seq<seq<Trivia>>, RewriteError>)
      modifies this
      ensures var run := RunFiles(old(State()), files, editor, answer);
        && (r.Success? <==> run.Success?)
        && (run.Success? ==> r.value == run.value.written && State() == run.value.state)
    {
      var written: seq<seq<Trivia>> := [];
      ghost var after: seq<RewriterState> := [];
      var i := 0;
      RunFrom(State(), files, editor, answer);
      while i < |files| && !IsStopping
        invariant 0 <= i <= |files|
        invariant RunFiles(old(State()), files, editor, answer)
               == Then(written, after, RunFiles(State(), files[i..], editor, answer))
      {
        RunStep(written, after, State(), files, i, editor, answer);
        var output := VisitFile(files[i], editor, answer);
        if output.Failure? {
          return Failure(output.error);
        }
        written := written + [output.value];
        after := after + [State()];
        i := i + 1;
      }
      RunDone(written, after, State(), files, i, editor, answer);
      return Success(written);
    }
  }

  /** A run over the remaining files, behind the files already written. */
  function Then(written: seq<seq<Trivia>>, after: seq<RewriterState>, rest: Result<Run, RewriteError>)
    : Result<Run, RewriteError>
  {
    match rest
    case Failure(e) => Failure(e)
    case Success(run) => Success(Run(written + run.written, after + run.after, run.state))
  }

  /** A pass over the remaining trivia, behind the trivia already visited. */
  function ThenPass(output: seq<Trivia>, shown: seq<string>, rest: Result<Pass, RewriteError>)
    : Result<Pass, RewriteError>
  {
    match rest
    case Failure(e) => Failure(e)
    case Success(p) => Success(Pass(output + p.output, p.state, shown + p.shown))
  }

  /** Nothing visited yet: the pass still to come is the whole pass. */
  lemma PassFrom(s: RewriterState, ts: seq<Trivia>, editor: string -> string, answer: string -> string)
    ensures VisitAll(s, ts, editor, answer) == ThenPass([], [], VisitAll(s, ts[0..], editor, answer))
  {
    assert ts[0..] == ts;
    var rest := VisitAll(s, ts, editor, answer);
    if rest.Success? {
      assert [] + rest.value.output == rest.value.output;
      assert [] + rest.value.shown == rest.value.shown;
    }
  }

  /** One more visited trivia moves from the pass still to come to the output already made. */
  lemma PassStep(output: seq<Trivia>, shown: seq<string>, s: RewriterState, ts: seq<Trivia>, j: nat,
                 editor: string -> string, answer: string -> string)
    requires j < |ts|
    ensures var v := Visit(s, ts[j], editor, answer(ts[j].text));
      ThenPass(output, shown, VisitAll(s, ts[j..], editor, answer))
        == if v.Failure? then Failure(v.error)
           else ThenPass(output + [v.value.result], shown + ShownText(v.value.shown),
                         VisitAll(v.value.state, ts[j + 1..], editor, answer))
  {
    assert ts[j..][0] == ts[j] && ts[j..][1..] == ts[j + 1..];
    var v := Visit(s, ts[j], editor, answer(ts[j].text));
    if v.Success? {
      var rest := VisitAll(v.value.state, ts[j + 1..], editor, answer);
      if rest.Success? {
        assert output + ([v.value.result] + rest.value.output)
            == output + [v.value.result] + rest.value.output;
        assert shown + (ShownText(v.value.shown) + rest.value.shown)
            == shown + ShownText(v.value.shown) + rest.value.shown;
      }
    }
  }

  /** Every trivia visited: the pass is what was made so far. */
  lemma PassDone(output: seq<Trivia>, shown: seq<string>, s: RewriterState, ts: seq<Trivia>,
                 editor: string -> string, answer: string -> string)
    ensures ThenPass(output, shown, VisitAll(s, ts[|ts|..], editor, answer)) == Success(Pass(output, s, shown))
  {
    assert ts[|ts|..] == [];
    assert output + [] == output && shown + [] == shown;
  }

  /** Nothing written yet: the run still to come is the whole run. */
  lemma RunFrom(s: RewriterState, files: seq<seq<Trivia>>, editor: string -> string, answer: string -> string)
    ensures RunFiles(s, files, editor, answer) == Then([], [], RunFiles(s, files[0..], editor, answer))
  {
    assert files[0..] == files;
    var rest := RunFiles(s, files, editor, answer);
    if rest.Success? {
      assert [] + rest.value.written == rest.value.written;
      assert [] + rest.value.after == rest.value.after;
    }
  }

  /** One more written file moves from the run still to come to the files already written. */
  lemma RunStep(written: seq<seq<Trivia>>, after: seq<RewriterState>, s: RewriterState,
                files: seq<seq<Trivia>>, i: nat, editor: string -> string, answer: string -> string)
    requires i < |files| && !s.isStopping
    ensures var p := VisitAll(s, files[i], editor, answer);
      Then(written, after, RunFiles(s, files[i..], editor, answer))
        == if p.Failure? then Failure(p.error)
           else Then(written + [p.value.output], after + [p.value.state],
                     RunFiles(p.value.state, files[i + 1..], editor, answer))
  {
    assert files[i..][0] == files[i] && files[i..][1..] == files[i + 1..];
    var p := VisitAll(s, files[i], editor, answer);
    if p.Success? {
      var rest := RunFiles(p.value.state, files[i + 1..], editor, answer);
      if rest.Success? {
        assert written + ([p.value.output] + rest.value.written)
            == written + [p.value.output] + rest.value.written;
        assert after + ([p.value.state] + rest.value.after)
            == after + [p.value.state] + rest.value.after;
      }
    }
  }

  /** No file left, or the rewriter stopped: the run is what was written so far. */
  lemma RunDone(written: seq<seq<Trivia>>, after: seq<RewriterState>, s: RewriterState,
                files: seq<seq<Trivia>>, i: nat, editor: string -> string, answer: string -> string)
    requires i <= |files| && (i == |files| || s.isStopping)
    ensures Then(written, after, RunFiles(s, files[i..], editor, answer)) == Success(Run(written, after, s))
  {
    assert i == |files| ==> files[i..] == [];
    assert written + [] == written && after + [] == after;
  }
}
