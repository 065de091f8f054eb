/**
 * autojoin.rb: the bookkeeping that turns a sorted directory of single-page
 * scans into openings. Even-indexed files are versos, split with the spine on
 * the right and kept as `_left` pages; odd-indexed files are rectos, kept as
 * `_right` pages; each recto is joined with the verso just before it.
 */
module AutoJoin {
  import opened Strings
  import AutoSplit

  /** `preprocess_verso`: the name of the `_left` page it leaves behind. */
  function PreprocessVerso(filename: string): (page: string)
    ensures |page| == |filename| + 5
  {
    AutoSplit.PageName(filename, "_left")
  }

  /** `preprocess_recto`: the name of the `_right` page it leaves behind. */
  function PreprocessRecto(filename: string): (page: string)
    ensures |page| == |filename| + 6
  {
    AutoSplit.PageName(filename, "_right")
  }

  /** For an ordinary `stem.e` the verso's page is `stem_left.e`. */
  lemma {:induction false} VersoName(stem: string, e: string)
    requires |stem| > 0 && stem[|stem| - 1] != '/'
    requires forall k :: 0 <= k < |e| ==> e[k] != '.' && e[k] != '/'
    requires Absent(stem, ['.'] + e)
    ensures PreprocessVerso(stem + ['.'] + e) == stem + "_left" + ['.'] + e
  {
    AutoSplit.PageNameOf(stem, e, "_left");
  }

  /** For an ordinary `stem.e` the recto's page is `stem_right.e`. */
  lemma {:induction false} RectoName(stem: string, e: string)
    requires |stem| > 0 && stem[|stem| - 1] != '/'
    requires forall k :: 0 <= k < |e| ==> e[k] != '.' && e[k] != '/'
    requires Absent(stem, ['.'] + e)
    ensures PreprocessRecto(stem + ['.'] + e) == stem + "_right" + ['.'] + e
  {
    AutoSplit.PageNameOf(stem, e, "_right");
  }

  /** A name without an extension gets the marker in front: "scan" becomes "_leftscan". */
  lemma {:induction false} VersoNameWithoutExtension(filename: string)
    requires ExtName(filename) == []
    ensures PreprocessVerso(filename) == "_left" + filename
  {
    AutoSplit.PageNameForm(filename, "_left");
  }

  // ---------------------------------------------------------------------------
  // join_opening

  datatype Size = Size(columns: nat, rows: nat)

  /** The montage cell both pages are placed in, and the file it is written to. */
  datatype Opening = Opening(cell: Size, name: string)

  /** `verso.sub("_left", "_opening")`. */
  function OpeningName(verso: string): (out: string)
    ensures out == verso || |out| == |verso| + 3
  {
    Sub(verso, "_left", "_opening")
  }

  /**
   * `join_opening`: the montage cell is the larger width by the larger height
   * of the two pages. The pages' sizes are read from their files, so they are
   * parameters here.
   */
  function JoinOpening(verso: string, recto: string, versoSize: Size, rectoSize: Size): (o: Opening)
    ensures o.cell.columns >= versoSize.columns && o.cell.columns >= rectoSize.columns
    ensures o.cell.columns == versoSize.columns || o.cell.columns == rectoSize.columns
    ensures o.cell.rows >= versoSize.rows && o.cell.rows >= rectoSize.rows
    ensures o.cell.rows == versoSize.rows || o.cell.rows == rectoSize.rows
    ensures o.name == OpeningName(verso)
  {
    var maxHeight := if versoSize.rows >= rectoSize.rows then versoSize.rows else rectoSize.rows;
    var maxWidth := if versoSize.columns >= rectoSize.columns then versoSize.columns else rectoSize.columns;
    Opening(Size(maxWidth, maxHeight), OpeningName(verso))
  }

  /**
   * The opening name replaces the first `_left` with `_opening`, and leaves a
   * name without `_left` as it is.
   */
  lemma {:induction false} OpeningNameForm(verso: string, i: nat)
    ensures FirstOccurrence(verso, "_left", i) ==> OpeningName(verso) == verso[..i] + "_opening" + verso[i + 5..]
    ensures Absent(verso, "_left") ==> OpeningName(verso) == verso
  {
    if FirstOccurrence(verso, "_left", i) {
      SubAtFirst(verso, "_left", "_opening", i);
    }
    if Absent(verso, "_left") {
      SubAbsent(verso, "_left", "_opening");
    }
  }

  /**
   * The composition used by `process_directory`: the verso `stem.e`, with no
   * `_left` in it, becomes the `_left` page `stem_left.e` and then the opening
   * `stem_opening.e`.
   */
  lemma {:induction false} OpeningOfVerso(stem: string, e: string)
    requires |stem| > 0 && stem[|stem| - 1] != '/'
    requires forall k :: 0 <= k < |e| ==> e[k] != '.' && e[k] != '/'
    requires Absent(stem, ['.'] + e)
    requires Absent(stem + ['.'] + e, "_left")
    ensures OpeningName(PreprocessVerso(stem + ['.'] + e)) == stem + "_opening" + ['.'] + e
  {
    VersoName(stem, e);
    AbsentFromPrefix(stem + ['.'], e, "_left");
    AbsentFromPrefix(stem, ['.'], "_left");
    OpeningOfPage(stem, e);
  }

  /** A page named `stem_left.e`, with no earlier `_left`, is joined into `stem_opening.e`. */
  lemma {:induction false} OpeningOfPage(stem: string, e: string)
    requires Absent(stem, "_left")
    ensures OpeningName(stem + "_left" + ['.'] + e) == stem + "_opening" + ['.'] + e
  {
    var ext := ['.'] + e;
    SubAfterStem(stem, "_left", ext, "_opening");
    assert stem + "_left" + ['.'] + e == stem + "_left" + ext;
    assert stem + "_opening" + ['.'] + e == stem + "_opening" + ext;
  }

  /**
   * As written, a `_left` earlier in the path wins: the verso page
   * "book_left/p_left.png" is joined into "book_opening/p_left.png".
   */
  lemma {:induction false} OpeningNameInLeftDirectory()
    ensures OpeningName("book_left/p_left.png") == "book_opening/p_left.png"
  {
    var s := "book_left/p_left.png";
    assert MatchesFrom(s, "_left", 4, 3);
    assert MatchesFrom(s, "_left", 4, 0);
    assert FindFrom(s, "_left", 4) == Some(4);
    assert FindFrom(s, "_left", 3) == Some(4);
    assert FindFrom(s, "_left", 2) == Some(4);
    assert FindFrom(s, "_left", 1) == Some(4);
    assert FindFrom(s, "_left", 0) == Some(4);
    assert s[..4] == "book";
    assert s[9..] == "/p_left.png";
  }

  // ---------------------------------------------------------------------------
  // process_directory

  /** The calls `process_directory` makes, in order. */
  datatype Call =
    | Verso(filename: string)             // preprocess_verso(filename)
    | Recto(filename: string)             // preprocess_recto(filename)
    | Join(verso: string, recto: string) // join_opening(verso, recto)

  /** How the page that a file leaves behind is named (`preprocess_verso` or `preprocess_recto`). */
  type Naming = string -> string

  /**
   * The pairing rule stated pair by pair: files 0 and 1 form the first
   * opening, 2 and 3 the second, and a last file without a partner is only
   * preprocessed. It holds whatever the page names are, so the naming is a
   * parameter.
   */
  function Schedule(files: seq<string>, verso: Naming, recto: Naming): seq<Call>
  {
    if |files| == 0 then []
    else if |files| == 1 then [Verso(files[0])]
    else
      [Verso(files[0]), Recto(files[1]), Join(verso(files[0]), recto(files[1]))] + Schedule(files[2..], verso, recto)
  }

  /** Extending the listing by one file extends the schedule by that file's calls. */
  lemma {:induction false} ScheduleSnoc(files: seq<string>, f: string, verso: Naming, recto: Naming)
    ensures |files| % 2 == 0 ==> Schedule(files + [f], verso, recto) == Schedule(files, verso, recto) + [Verso(f)]
    ensures |files| % 2 == 1 ==>
      Schedule(files + [f], verso, recto) == Schedule(files, verso, recto) + [Recto(f), Join(verso(files[|files| - 1]), recto(f))]
    decreases |files|
  {
    if |files| >= 2 {
      ScheduleSnoc(files[2..], f, verso, recto);
      assert (files + [f])[2..] == files[2..] + [f];
    } else if |files| == 1 {
      assert (files + [f])[2..] == [];
    }
  }

  /** The calls the file at index `i` of the listing adds, by the parity of `i`. */
  lemma {:induction false} ScheduleStep(files: seq<string>, i: nat, verso: Naming, recto: Naming)
    requires i < |files|
    ensures i % 2 == 0 ==> Schedule(files[..i + 1], verso, recto) == Schedule(files[..i], verso, recto) + [Verso(files[i])]
    ensures i % 2 == 1 ==> (Schedule(files[..i + 1], verso, recto) ==
      Schedule(files[..i], verso, recto) + [Recto(files[i]), Join(verso(files[i - 1]), recto(files[i]))])
  {
    ScheduleSnoc(files[..i], files[i], verso, recto);
    assert files[..i] + [files[i]] == files[..i + 1];
  }

  /** Every file is preprocessed once and every pair adds one join. */
  lemma {:induction false} ScheduleLength(files: seq<string>, verso: Naming, recto: Naming)
    ensures |Schedule(files, verso, recto)| == |files| + |files| / 2
    decreases |files|
  {
    if |files| >= 2 {
      ScheduleLength(files[2..], verso, recto);
    }
  }

  /** Opening k is made of file 2k (verso) and file 2k+1 (recto), right after preprocessing them. */
  lemma {:induction false} ScheduleOpening(files: seq<string>, k: nat, verso: Naming, recto: Naming)
    requires k < |files| / 2
    ensures |Schedule(files, verso, recto)| > 3 * k + 2
    ensures Schedule(files, verso, recto)[3 * k] == Verso(files[2 * k])
    ensures Schedule(files, verso, recto)[3 * k + 1] == Recto(files[2 * k + 1])
    ensures Schedule(files, verso, recto)[3 * k + 2] == Join(verso(files[2 * k]), recto(files[2 * k + 1]))
    decreases k
  {
    ScheduleLength(files, verso, recto);
    if k > 0 {
      ScheduleOpening(files[2..], k - 1, verso, recto);
      assert files[2..][2 * (k - 1)] == files[2 * k];
      assert files[2..][2 * (k - 1) + 1] == files[2 * k + 1];
    }
  }

  /** A trailing file at an even index is preprocessed as a verso, last, and joined with nothing. */
  lemma {:induction false} ScheduleTrailing(files: seq<string>, verso: Naming, recto: Naming)
    requires |files| % 2 == 1
    ensures Schedule(files, verso, recto) == Schedule(files[..|files| - 1], verso, recto) + [Verso(files[|files| - 1])]
  {
    var init, last := files[..|files| - 1], files[|files| - 1];
    assert init + [last] == files;
    assert |init| % 2 == 0;
    ScheduleSnoc(init, last, verso, recto);
  }

  /** The number of joins in a sequence of calls. */
  function CountJoins(calls: seq<Call>): nat
  {
    if |calls| == 0 then 0 else (if calls[0].Join? then 1 else 0) + CountJoins(calls[1..])
  }

  lemma {:induction false} CountJoinsAppend(a: seq<Call>, b: seq<Call>)
    ensures CountJoins(a + b) == CountJoins(a) + CountJoins(b)
    decreases |a|
  {
    if |a| > 0 {
      CountJoinsAppend(a[1..], b);
      assert (a + b)[1..] == a[1..] + b;
    } else {
      assert a + b == b;
    }
  }

  /** `n` files give exactly n / 2 openings. */
  lemma {:induction false} ScheduleJoinCount(files: seq<string>, verso: Naming, recto: Naming)
    ensures CountJoins(Schedule(files, verso, recto)) == |files| / 2
    decreases |files|
  {
    if |files| >= 2 {
      var head := [Verso(files[0]), Recto(files[1]), Join(verso(files[0]), recto(files[1]))];
      ScheduleJoinCount(files[2..], verso, recto);
      CountJoinsAppend(head, Schedule(files[2..], verso, recto));
      assert CountJoins(head) == 1 by {
        assert head[1..][1..][1..] == [];
        assert CountJoins(head[1..][1..]) == 1;
        assert CountJoins(head[1..]) == 1;
      }
    } else if |files| == 1 {
      assert [Verso(files[0])][1..] == [];
    }
  }

  /**
   * The loop of `process_directory` over the sorted listing, for any page
   * naming: it keeps the last verso's page name in `leftFilename` and joins
   * it with the recto that follows.
   */
  method ProcessListing(files: seq<string>, verso: Naming, recto: Naming) returns (calls: seq<Call>)
    ensures calls == Schedule(files, verso, recto)
  {
    var leftFilename: Option<string> := None;
    calls := [];
    var i := 0;
    while i < |files|
      invariant 0 <= i <= |files|
      invariant calls == Schedule(files[..i], verso, recto)
      invariant i % 2 == 1 ==> leftFilename == Some(verso(files[i - 1]))
    {
      ScheduleStep(files, i, verso, recto);
      if i % 2 == 0 {
        leftFilename := Some(verso(files[i]));
        calls := calls + [Verso(files[i])];
      } else {
        var rightFilename := recto(files[i]);
        calls := calls + [Recto(files[i]), Join(leftFilename.value, rightFilename)];
      }
      i := i + 1;
    }
    assert files[..i] == files;
  }

  /** `process_directory`: the loop with the pages named by `preprocess_verso` and `preprocess_recto`. */
  method ProcessDirectory(files: seq<string>) returns (calls: seq<Call>)
    ensures calls == Schedule(files, PreprocessVerso, PreprocessRecto)
  {
    calls := ProcessListing(files, PreprocessVerso, PreprocessRecto);
  }
}
