/** The dialogue of `saveData` around the writing loop: the path it
    suggests (the file loaded last, or the first free name of the form
    data_siswa_1_1.irf), the path prompt with that suggestion as its
    fallback, and the overwrite question asked before replacing an
    existing file other than the suggested one. Which files exist is a
    parameter: the set of paths `fopen(path, "r")` opens. */
module SavePath {
  import opened Util
  import opened Validation
  import opened Codec
  import opened Store

  const DefaultPath: string := "data_siswa.irf"

  /** The path buffer holds 128 bytes; `getInput` fills at most 127. */
  const PathWidth: nat := 127

  /** A suggestion longer than this is not renumbered further. */
  const GrowthLimit: nat := 120

  /** The first candidate longer than `GrowthLimit`: 14 + 2 * 54 = 122. */
  const LastCandidate: nat := 54

  function Ones(k: nat): (s: string)
    ensures |s| == 2 * k
  {
    if k == 0 then "" else Ones(k - 1) + "_1"
  }

  /** The default name renumbered `k` times. */
  function Candidate(k: nat): (p: string)
    ensures |p| == 14 + 2 * k
  {
    "data_siswa" + Ones(k) + ".irf"
  }

  /** `strcpy(p + strlen(p) - 4, "_1.irf")`: the last four characters are
      replaced by "_1.irf". */
  function Renumber(p: string): (r: string)
    requires |p| >= 4
    ensures |r| == |p| + 2
    ensures r[..|p| - 4] == p[..|p| - 4] && r[|p| - 4..] == "_1.irf"
  {
    p[..|p| - 4] + "_1.irf"
  }

  /** The default name is candidate 0, and renumbering candidate `k` gives
      candidate `k + 1`. */
  lemma RenumberCandidate(k: nat)
    ensures Candidate(0) == DefaultPath
    ensures Renumber(Candidate(k)) == Candidate(k + 1)
  {
    var p := Candidate(k);
    assert p[..|p| - 4] == "data_siswa" + Ones(k);
    assert Candidate(k + 1) == ("data_siswa" + Ones(k)) + "_1.irf";
  }

  /** The number of the first candidate from `k` on that does not exist,
      or `LastCandidate` when all of those before it are taken. */
  function FirstFree(existing: set<string>, k: nat): (r: nat)
    requires k <= LastCandidate
    ensures k <= r <= LastCandidate
    ensures forall j :: k <= j < r ==> Candidate(j) in existing
    ensures r < LastCandidate ==> Candidate(r) !in existing
    decreases LastCandidate - k
  {
    if Candidate(k) !in existing || |Candidate(k)| > GrowthLimit then k
    else FirstFree(existing, k + 1)
  }

  /** The name suggested for a list that was not loaded from a file: the
      default name when it is free; otherwise the first free renumbering;
      the longest one when every shorter one exists. */
  lemma SuggestionIsFirstFree(existing: set<string>)
    ensures DefaultPath !in existing ==> FirstFree(existing, 0) == 0
    ensures var r := FirstFree(existing, 0);
            (Candidate(r) !in existing || r == LastCandidate)
            && forall j :: 0 <= j < r ==> Candidate(j) in existing
  {
    RenumberCandidate(0);
  }

  /** The suggestion of `saveData`: the path of the file loaded last, or
      the default name renumbered while a file of that name exists. */
  method Suggest(lastLoaded: Option<string>, existing: set<string>) returns (path: string)
    ensures lastLoaded.Some? ==> path == lastLoaded.value
    ensures lastLoaded.None? ==> path == Candidate(FirstFree(existing, 0))
  {
    if lastLoaded.Some? {
      return lastLoaded.value;
    }
    path := DefaultPath;
    ghost var k := 0;
    RenumberCandidate(0);
    while path in existing
      invariant k <= LastCandidate && path == Candidate(k)
      invariant FirstFree(existing, k) == FirstFree(existing, 0)
      decreases LastCandidate - k
    {
      if |path| > GrowthLimit {
        break;
      }
      RenumberCandidate(k);
      path := path[..|path| - 4] + "_1.irf";
      k := k + 1;
    }
  }

  /** The path prompt: an empty line takes the suggestion, any other line
      is the path, each cut to the 127 characters of the buffer. */
  function ChosenPath(line: string, suggested: string): (p: string)
    ensures line == [] ==> p == Take(suggested, PathWidth)
    ensures line != [] ==> p == Take(line, PathWidth)
  {
    Accept(line, None, Some(suggested), PathWidth).value
  }

  const AnswerFilter: string := "yYtT"

  /** One pass of the overwrite question: whether to go on writing, or
      None when the line is refused and the question is asked again. The
      fallback "T" makes an empty line a refusal. */
  function OverwriteAnswer(answer: string): (r: Option<bool>)
    ensures answer == [] ==> r == Some(false)
    ensures answer != [] ==>
      (r.Some? <==> forall i :: 0 <= i < |answer| ==> answer[i] in AnswerFilter)
    ensures r == Some(true) <==> answer != [] && r.Some? && (answer[0] == 'y' || answer[0] == 'Y')
  {
    match Accept(answer, Some(AnswerFilter), Some("T"), 1)
    case None => None
    case Some(choice) => Some(ToUpper(choice[0]) != 'T')
  }

  /** The answers the question can get. */
  lemma OverwriteExamples()
    ensures OverwriteAnswer("y") == Some(true) && OverwriteAnswer("Y") == Some(true)
    ensures OverwriteAnswer("t") == Some(false) && OverwriteAnswer("") == Some(false)
    ensures OverwriteAnswer("yes") == None && OverwriteAnswer("n") == None
    ensures OverwriteAnswer("ty") == Some(false) && OverwriteAnswer("yT") == Some(true)
  {
    assert "yes"[1] !in AnswerFilter;
    assert "n"[0] !in AnswerFilter;
  }

  /** Whether `saveData` goes on to write `path`: the question is asked
      only when a file of that name exists and it is not the suggested
      one; None when the answer is refused and asked again. */
  function Proceeds(path: string, suggested: string, existing: set<string>, answer: string): (r: Option<bool>)
    ensures path !in existing || path == suggested ==> r == Some(true)
    ensures path in existing && path != suggested ==> r == OverwriteAnswer(answer)
  {
    if path in existing && path != suggested then OverwriteAnswer(answer) else Some(true)
  }

  /** An existing file is replaced without a question only when it is the
      suggested one; otherwise only an answer starting with 'y' or 'Y'
      replaces it. */
  lemma ExistingFileNeedsYes(path: string, suggested: string, existing: set<string>, answer: string)
    requires path in existing && Proceeds(path, suggested, existing, answer) == Some(true)
    ensures path == suggested || (answer != [] && (answer[0] == 'y' || answer[0] == 'Y'))
  {
  }

  /** `saveData` with its two answers already read: the file it writes and
      the lines it writes there (the lines of the list in list order), or
      None when the overwrite is refused. `answer` is the line the
      overwrite question accepted, read only when the question is asked. */
  method SaveData(list: StudentList, lastLoaded: Option<string>, existing: set<string>,
                  pathLine: string, answer: string) returns (saved: Option<(string, seq<string>)>)
    requires list.Valid()
    requires OverwriteAnswer(answer).Some?
    ensures var suggested := if lastLoaded.Some? then lastLoaded.value else Candidate(FirstFree(existing, 0));
            var path := ChosenPath(pathLine, suggested);
            && (saved.Some? <==> Proceeds(path, suggested, existing, answer) == Some(true))
            && (saved.Some? ==> saved.value == (path, Encode(list.Contents)))
  {
    var suggested := Suggest(lastLoaded, existing);
    var path := ChosenPath(pathLine, suggested);
    if path in existing && path != suggested {
      var goOn := OverwriteAnswer(answer);
      if goOn == Some(false) {
        return None;
      }
    }
    var lines := list.Save();
    saved := Some((path, lines));
  }
}
