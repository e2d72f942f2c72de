/** The result merge of the recognizer's `onresult` handler: the results of
    one recognition event, from `resultIndex` to the end, are split into the
    text of the final results and the text of the interim ones. */
module Recognition {
  import opened Text

  /** One entry of `event.results`: the transcript of its first alternative
      and whether the recogniser has finalised it. */
  datatype SpeechResult = SpeechResult(transcript: string, isFinal: bool)

  /** The results the handler walks: those from `resultIndex` on (none when
      `resultIndex` is past the end, as the loop then does not run). */
  function Pending(results: seq<SpeechResult>, resultIndex: nat): (r: seq<SpeechResult>)
    ensures |r| == if resultIndex <= |results| then |results| - resultIndex else 0
    ensures forall k :: 0 <= k < |r| ==> r[k] == results[resultIndex + k]
  {
    if resultIndex <= |results| then results[resultIndex..] else []
  }

  /** The final part, folded from the left as the loop accumulates it. */
  function FinalText(rs: seq<SpeechResult>): string {
    if rs == [] then ""
    else
      var last := rs[|rs| - 1];
      FinalText(rs[..|rs| - 1]) + (if last.isFinal then last.transcript else "")
  }

  /** The interim part, folded the same way. */
  function InterimText(rs: seq<SpeechResult>): string {
    if rs == [] then ""
    else
      var last := rs[|rs| - 1];
      InterimText(rs[..|rs| - 1]) + (if last.isFinal then "" else last.transcript)
  }

  /** The loop of lines 70-77: one pass over the pending results, appending
      each transcript to the final or the interim accumulator. */
  method MergeResults(results: seq<SpeechResult>, resultIndex: nat)
    returns (finalTranscript: string, interimTranscript: string)
    ensures finalTranscript == FinalText(Pending(results, resultIndex))
    ensures interimTranscript == InterimText(Pending(results, resultIndex))
  {
    interimTranscript := "";
    finalTranscript := "";
    var i := resultIndex;
    while i < |results|
      invariant resultIndex <= i
      invariant i > |results| ==> i == resultIndex && finalTranscript == "" && interimTranscript == ""
      invariant i <= |results| ==> finalTranscript == FinalText(results[resultIndex..i])
      invariant i <= |results| ==> interimTranscript == InterimText(results[resultIndex..i])
    {
      assert results[resultIndex..i + 1][..i - resultIndex] == results[resultIndex..i];
      var transcript := results[i].transcript;
      if results[i].isFinal {
        finalTranscript := finalTranscript + transcript;
      } else {
        interimTranscript := interimTranscript + transcript;
      }
      i := i + 1;
    }
    if resultIndex <= |results| {
      assert results[resultIndex..i] == results[resultIndex..];
    }
  }

  /** Concatenation of a sequence of strings, in order. */
  function Join(parts: seq<string>): string {
    if parts == [] then "" else parts[0] + Join(parts[1..])
  }

  /** Result `i` contributes its text to the final part exactly when it is
      final, and nothing otherwise. */
  function FinalPieces(rs: seq<SpeechResult>): (r: seq<string>)
    ensures |r| == |rs|
    ensures forall i :: 0 <= i < |rs| ==> r[i] == (if rs[i].isFinal then rs[i].transcript else "")
  {
    seq(|rs|, i requires 0 <= i < |rs| => if rs[i].isFinal then rs[i].transcript else "")
  }

  /** Result `i` contributes its text to the interim part exactly when it is
      not final. */
  function InterimPieces(rs: seq<SpeechResult>): (r: seq<string>)
    ensures |r| == |rs|
    ensures forall i :: 0 <= i < |rs| ==> r[i] == (if rs[i].isFinal then "" else rs[i].transcript)
  {
    seq(|rs|, i requires 0 <= i < |rs| => if rs[i].isFinal then "" else rs[i].transcript)
  }

  lemma {:induction false} JoinSnoc(parts: seq<string>, x: string)
    ensures Join(parts + [x]) == Join(parts) + x
  {
    if parts != [] {
      assert (parts + [x])[1..] == parts[1..] + [x];
      JoinSnoc(parts[1..], x);
    }
  }

  /** One more result extends the matching part by its transcript. */
  lemma FoldSnoc(rs: seq<SpeechResult>, x: SpeechResult)
    ensures FinalText(rs + [x]) == FinalText(rs) + (if x.isFinal then x.transcript else "")
    ensures InterimText(rs + [x]) == InterimText(rs) + (if x.isFinal then "" else x.transcript)
  {
    assert (rs + [x])[..|rs|] == rs;
  }

  lemma {:induction false} FinalJoinsInOrder(rs: seq<SpeechResult>)
    ensures FinalText(rs) == Join(FinalPieces(rs))
  {
    if rs != [] {
      var front := rs[..|rs| - 1];
      FinalJoinsInOrder(front);
      assert FinalPieces(rs) == FinalPieces(front) + [FinalPieces(rs)[|rs| - 1]];
      JoinSnoc(FinalPieces(front), FinalPieces(rs)[|rs| - 1]);
    }
  }

  lemma {:induction false} InterimJoinsInOrder(rs: seq<SpeechResult>)
    ensures InterimText(rs) == Join(InterimPieces(rs))
  {
    if rs != [] {
      var front := rs[..|rs| - 1];
      InterimJoinsInOrder(front);
      assert InterimPieces(rs) == InterimPieces(front) + [InterimPieces(rs)[|rs| - 1]];
      JoinSnoc(InterimPieces(front), InterimPieces(rs)[|rs| - 1]);
    }
  }

  /** The final part joins, in index order, the texts of the final results;
      the interim part joins those of the others. */
  lemma MergeJoinsInOrder(rs: seq<SpeechResult>)
    ensures FinalText(rs) == Join(FinalPieces(rs))
    ensures InterimText(rs) == Join(InterimPieces(rs))
  {
    FinalJoinsInOrder(rs);
    InterimJoinsInOrder(rs);
  }

  lemma {:induction false} FinalTextAppend(a: seq<SpeechResult>, b: seq<SpeechResult>)
    ensures FinalText(a + b) == FinalText(a) + FinalText(b)
  {
    if b == [] {
      assert a + b == a;
    } else {
      var front, last := b[..|b| - 1], b[|b| - 1];
      assert b == front + [last];
      assert a + b == (a + front) + [last];
      var piece := if last.isFinal then last.transcript else "";
      calc {
        FinalText(a + b);
        FinalText((a + front) + [last]);
        { FoldSnoc(a + front, last); }
        FinalText(a + front) + piece;
        { FinalTextAppend(a, front); }
        FinalText(a) + FinalText(front) + piece;
        { FoldSnoc(front, last); }
        FinalText(a) + FinalText(b);
      }
    }
  }

  lemma {:induction false} InterimTextAppend(a: seq<SpeechResult>, b: seq<SpeechResult>)
    ensures InterimText(a + b) == InterimText(a) + InterimText(b)
  {
    if b == [] {
      assert a + b == a;
    } else {
      var front, last := b[..|b| - 1], b[|b| - 1];
      assert b == front + [last];
      assert a + b == (a + front) + [last];
      var piece := if last.isFinal then "" else last.transcript;
      calc {
        InterimText(a + b);
        InterimText((a + front) + [last]);
        { FoldSnoc(a + front, last); }
        InterimText(a + front) + piece;
        { InterimTextAppend(a, front); }
        InterimText(a) + InterimText(front) + piece;
        { FoldSnoc(front, last); }
        InterimText(a) + InterimText(b);
      }
    }
  }

  /** Merging two runs of results merges each part run by run. */
  lemma MergeAppend(a: seq<SpeechResult>, b: seq<SpeechResult>)
    ensures FinalText(a + b) == FinalText(a) + FinalText(b)
    ensures InterimText(a + b) == InterimText(a) + InterimText(b)
  {
    FinalTextAppend(a, b);
    InterimTextAppend(a, b);
  }

  /** The final part is empty exactly when every final result has an empty
      transcript: the handler begins a translation iff some final result
      carries text. */
  lemma {:induction false} FinalTextEmptyIff(rs: seq<SpeechResult>)
    ensures FinalText(rs) == "" <==> forall i :: 0 <= i < |rs| && rs[i].isFinal ==> rs[i].transcript == ""
  {
    if rs != [] {
      var front := rs[..|rs| - 1];
      FinalTextEmptyIff(front);
      assert forall i :: 0 <= i < |front| ==> front[i] == rs[i];
    }
  }

  lemma BlankAppend(a: string, b: string)
    ensures IsBlank(a + b) <==> IsBlank(a) && IsBlank(b)
  {
    if IsBlank(a + b) {
      forall i | 0 <= i < |a| ensures IsWhitespace(a[i]) {
        assert a[i] == (a + b)[i];
      }
      forall i | 0 <= i < |b| ensures IsWhitespace(b[i]) {
        assert b[i] == (a + b)[|a| + i];
      }
    }
  }

  /** The final part is blank (so that `translateText` does nothing with it)
      exactly when the transcript of every final result is blank. */
  lemma {:induction false} FinalTextBlankIff(rs: seq<SpeechResult>)
    ensures IsBlank(FinalText(rs)) <==> forall i :: 0 <= i < |rs| && rs[i].isFinal ==> IsBlank(rs[i].transcript)
  {
    if rs != [] {
      var front := rs[..|rs| - 1];
      var last := rs[|rs| - 1];
      FinalTextBlankIff(front);
      BlankAppend(FinalText(front), if last.isFinal then last.transcript else "");
      assert forall i :: 0 <= i < |front| ==> front[i] == rs[i];
    }
  }

  /** Interim text never reaches the final part: two event result lists that
      agree on which results are final, and on the text of the final ones,
      have the same final part whatever their interim texts are. */
  lemma {:induction false} FinalTextIgnoresInterim(s: seq<SpeechResult>, t: seq<SpeechResult>)
    requires |s| == |t|
    requires forall i :: 0 <= i < |s| ==> s[i].isFinal == t[i].isFinal
    requires forall i :: 0 <= i < |s| && s[i].isFinal ==> s[i].transcript == t[i].transcript
    ensures FinalText(s) == FinalText(t)
  {
    if s != [] {
      FinalTextIgnoresInterim(s[..|s| - 1], t[..|t| - 1]);
    }
  }

  /** Results before `resultIndex` contribute nothing: whatever they are,
      the merge sees only the results from `resultIndex` on. */
  lemma EarlierResultsIgnored(earlier: seq<SpeechResult>, rest: seq<SpeechResult>)
    ensures FinalText(Pending(earlier + rest, |earlier|)) == FinalText(rest)
    ensures InterimText(Pending(earlier + rest, |earlier|)) == InterimText(rest)
  {
  }
}
