/** Which tweets the `Tweet` target publishes: the base name of the next
    thread (`GetTweetBaseName`, or the `TweetBaseName` parameter) and the
    sorted batch of `.md` files that start with it. The content directory is
    the list of its file names in the order the glob enumerates them. */
module Selection {
  import opened Wrappers
  import opened Text
  import opened Sorting
  import opened Ledger

  /** `GlobFiles("*.md").Select(GetFileNameWithoutExtension)`, in listing order. */
  function MdStems(dir: seq<string>): seq<string> {
    if dir == [] then []
    else (if EndsWith(dir[0], ".md") then [Stem(dir[0])] else []) + MdStems(dir[1..])
  }

  /** The candidates are exactly the names whose `.md` file is listed; there
      are none exactly when no listed file ends in ".md". */
  lemma {:induction false} MdStemsMatch(dir: seq<string>)
    ensures forall c :: c in MdStems(dir) <==> c + ".md" in dir
    ensures MdStems(dir) == [] <==> forall f :: f in dir ==> !EndsWith(f, ".md")
  {
    if dir != [] {
      var f := dir[0];
      MdStemsMatch(dir[1..]);
      assert forall g :: g in dir <==> g == f || g in dir[1..];
      if EndsWith(f, ".md") {
        StemOfMd(f);
        assert f == f[..|f| - 3] + ".md";
      } else {
        assert forall c :: c + ".md" != f;
      }
    }
  }

  /** Each stem occurs as often as its `.md` file does in the listing. */
  lemma {:induction false} MdStemsCount(dir: seq<string>, c: string)
    ensures multiset(MdStems(dir))[c] == multiset(dir)[c + ".md"]
  {
    if dir != [] {
      MdStemsCount(dir[1..], c);
      assert dir == [dir[0]] + dir[1..];
      var f := dir[0];
      if EndsWith(f, ".md") {
        StemOfMd(f);
        assert f == f[..|f| - 3] + ".md";
        assert Stem(f) == c <==> f == c + ".md";
      } else {
        assert f != c + ".md";
      }
    }
  }

  /** The sort key `SentTweets.FindIndex(y => y.Name == x)`, then `ThenBy(x => x)`. */
  predicate CandidateLe(ledger: seq<SentTweet>, a: string, b: string) {
    var ka, kb := FindIndex(ledger, a), FindIndex(ledger, b);
    ka < kb || (ka == kb && OrdinalLe(a, b))
  }

  function CandidateOrder(ledger: seq<SentTweet>): (string, string) -> bool {
    (a, b) => CandidateLe(ledger, a, b)
  }

  function OrdinalOrder(): (string, string) -> bool {
    (a, b) => OrdinalLe(a, b)
  }

  lemma OrdinalOrderIsTotal()
    ensures TotalPreorder(OrdinalOrder()) && Antisymmetric(OrdinalOrder())
  {
    forall a, b ensures OrdinalLe(a, b) || OrdinalLe(b, a) {
      OrdinalLeTotal(a, b);
    }
    forall a, b, c | OrdinalLe(a, b) && OrdinalLe(b, c) ensures OrdinalLe(a, c) {
      OrdinalLeTransitive(a, b, c);
    }
    forall a, b | OrdinalLe(a, b) && OrdinalLe(b, a) ensures a == b {
      OrdinalLeAntisymmetric(a, b);
    }
  }

  lemma CandidateOrderIsTotal(ledger: seq<SentTweet>)
    ensures TotalPreorder(CandidateOrder(ledger)) && Antisymmetric(CandidateOrder(ledger))
  {
    OrdinalOrderIsTotal();
    assert forall a, b :: OrdinalLe(a, b) == OrdinalOrder()(a, b);
  }

  /** `tweetsOrderedByLastPublish`: the candidates sorted by ledger rank, then
      by name. A name never sent has rank -1, so every never-sent candidate
      comes before every sent one; sent candidates come in the order of their
      first ledger record; equal ranks are in ascending name order. */
  function OrderedCandidates(dir: seq<string>, ledger: seq<SentTweet>): (r: seq<string>)
    ensures multiset(r) == multiset(MdStems(dir))
    ensures forall i, j :: 0 <= i < j < |r| && FindIndex(ledger, r[i]) >= 0 ==> FindIndex(ledger, r[j]) >= 0
    ensures forall i, j :: 0 <= i < j < |r| ==> FindIndex(ledger, r[i]) <= FindIndex(ledger, r[j])
    ensures forall i, j :: 0 <= i < j < |r| && FindIndex(ledger, r[i]) == FindIndex(ledger, r[j]) ==>
      OrdinalLe(r[i], r[j])
  {
    CandidateOrderIsTotal(ledger);
    SortSorted(MdStems(dir), CandidateOrder(ledger));
    Sort(MdStems(dir), CandidateOrder(ledger))
  }

  /** `GetTweetBaseName()`: the first ordered candidate with its numbering cut
      off; `First()` fails when the directory holds no `.md` file. On success
      the name comes from a candidate that sorts no later than any other. */
  function GetTweetBaseName(dir: seq<string>, ledger: seq<SentTweet>): (r: Result<string, Failure>)
    ensures r.Err? <==> forall f :: f in dir ==> !EndsWith(f, ".md")
    ensures r.Err? ==> r.error == NoCandidates
    ensures r.Ok? ==> NoDigits(r.value)
    ensures r.Ok? ==> exists c :: (c in MdStems(dir) && r.value == StripNumbering(c) &&
      forall d :: d in MdStems(dir) ==> CandidateLe(ledger, c, d))
  {
    var ordered := OrderedCandidates(dir, ledger);
    MdStemsMatch(dir);
    FirstCandidateMinimal(dir, ledger);
    if ordered == [] then Err(NoCandidates) else Ok(StripNumbering(ordered[0]))
  }

  /** There is a first candidate exactly when a candidate exists, and it
      sorts no later than any candidate. */
  lemma FirstCandidateMinimal(dir: seq<string>, ledger: seq<SentTweet>)
    ensures OrderedCandidates(dir, ledger) == [] <==> MdStems(dir) == []
    ensures var ordered := OrderedCandidates(dir, ledger);
      ordered != [] ==> (ordered[0] in MdStems(dir) &&
        forall d :: d in MdStems(dir) ==> CandidateLe(ledger, ordered[0], d))
  {
    var ordered := OrderedCandidates(dir, ledger);
    assert |multiset(ordered)| == |multiset(MdStems(dir))|;
    if ordered != [] {
      var c := ordered[0];
      assert c in multiset(MdStems(dir));
      forall d | d in MdStems(dir) ensures CandidateLe(ledger, c, d) {
        assert d in multiset(ordered);
        var j :| 0 <= j < |ordered| && ordered[j] == d;
        if j > 0 {
          assert FindIndex(ledger, c) <= FindIndex(ledger, d);
        } else {
          OrdinalLeTotal(c, c);
        }
      }
    }
  }

  /** `TweetBaseName ?? GetTweetBaseName()`: a supplied name is used as it is,
      without looking at the ledger or the directory. */
  function SelectBaseName(tweetBaseName: Option<string>, dir: seq<string>, ledger: seq<SentTweet>): (r: Result<string, Failure>)
    ensures tweetBaseName.Some? ==> r == Ok(tweetBaseName.value)
    ensures tweetBaseName.None? ==> r == GetTweetBaseName(dir, ledger)
  {
    if tweetBaseName.Some? then Ok(tweetBaseName.value) else GetTweetBaseName(dir, ledger)
  }

  /** The glob `{baseName}*.md`: the name is the base name, any text, `.md`. */
  predicate MatchesTweetGlob(f: string, baseName: string) {
    |baseName| + 3 <= |f| && StartsWith(f, baseName) && EndsWith(f, ".md")
  }

  /** The listed files that match `{baseName}*.md`, in listing order. */
  function Matching(dir: seq<string>, baseName: string): (r: seq<string>)
    ensures forall f :: multiset(r)[f] == if MatchesTweetGlob(f, baseName) then multiset(dir)[f] else 0
  {
    if dir == [] then []
    else
      assert dir == [dir[0]] + dir[1..];
      (if MatchesTweetGlob(dir[0], baseName) then [dir[0]] else []) + Matching(dir[1..], baseName)
  }

  /** `tweetFiles`: every file of the directory that matches `{baseName}*.md`
      and nothing else, each as often as it is listed, in ascending order. */
  function TweetFiles(dir: seq<string>, baseName: string): (r: seq<string>)
    ensures forall f :: f in r <==> f in dir && MatchesTweetGlob(f, baseName)
    ensures forall f :: multiset(r)[f] == if MatchesTweetGlob(f, baseName) then multiset(dir)[f] else 0
    ensures forall i, j :: 0 <= i < j < |r| ==> OrdinalLe(r[i], r[j])
  {
    OrdinalOrderIsTotal();
    SortSorted(Matching(dir, baseName), OrdinalOrder());
    Sort(Matching(dir, baseName), OrdinalOrder())
  }

  /** A directory lists each name once, so the batch has no duplicates and is
      strictly ascending. */
  lemma TweetFilesDistinct(dir: seq<string>, baseName: string)
    requires forall f :: multiset(dir)[f] <= 1
    ensures var r := TweetFiles(dir, baseName);
      forall i, j :: 0 <= i < j < |r| ==> r[i] != r[j]
  {
    var r := TweetFiles(dir, baseName);
    assert Sorted(r, OrdinalOrder());
    SortedDistinct(r, OrdinalOrder());
  }

  /** The candidate order does not depend on the glob's enumeration order. */
  lemma CandidatesIgnoreListingOrder(dir1: seq<string>, dir2: seq<string>, ledger: seq<SentTweet>)
    requires multiset(dir1) == multiset(dir2)
    ensures OrderedCandidates(dir1, ledger) == OrderedCandidates(dir2, ledger)
  {
    forall c ensures multiset(MdStems(dir1))[c] == multiset(MdStems(dir2))[c] {
      MdStemsCount(dir1, c);
      MdStemsCount(dir2, c);
    }
    assert multiset(MdStems(dir1)) == multiset(MdStems(dir2));
    CandidateOrderIsTotal(ledger);
    SortOrderIndependent(MdStems(dir1), MdStems(dir2), CandidateOrder(ledger));
  }

  /** The batch does not depend on the glob's enumeration order. */
  lemma BatchIgnoresListingOrder(dir1: seq<string>, dir2: seq<string>, baseName: string)
    requires multiset(dir1) == multiset(dir2)
    ensures TweetFiles(dir1, baseName) == TweetFiles(dir2, baseName)
  {
    assert multiset(Matching(dir1, baseName)) == multiset(Matching(dir2, baseName));
    OrdinalOrderIsTotal();
    SortOrderIndependent(Matching(dir1, baseName), Matching(dir2, baseName), OrdinalOrder());
  }

  /** Neither the base name nor the batch depends on the order in which the
      glob lists the directory. */
  lemma SelectionIgnoresListingOrder(dir1: seq<string>, dir2: seq<string>, ledger: seq<SentTweet>, baseName: string)
    requires multiset(dir1) == multiset(dir2)
    ensures OrderedCandidates(dir1, ledger) == OrderedCandidates(dir2, ledger)
    ensures GetTweetBaseName(dir1, ledger) == GetTweetBaseName(dir2, ledger)
    ensures TweetFiles(dir1, baseName) == TweetFiles(dir2, baseName)
  {
    CandidatesIgnoreListingOrder(dir1, dir2, ledger);
    BatchIgnoresListingOrder(dir1, dir2, baseName);
  }

  /** The computed base name always selects a non-empty batch: the first
      candidate's own file is in it (for a name on one line). */
  lemma BatchHoldsFirstCandidate(dir: seq<string>, ledger: seq<SentTweet>)
    requires GetTweetBaseName(dir, ledger).Ok?
    requires '\n' !in OrderedCandidates(dir, ledger)[0]
    ensures OrderedCandidates(dir, ledger)[0] + ".md" in TweetFiles(dir, GetTweetBaseName(dir, ledger).value)
  {
    var ordered := OrderedCandidates(dir, ledger);
    MdStemsMatch(dir);
    var c := ordered[0];
    var b := GetTweetBaseName(dir, ledger).value;
    assert b == StripNumbering(c);
    assert c in multiset(MdStems(dir));
    var f := c + ".md";
    assert f[..|b|] == c[..|b|];
    assert f[|f| - 3..] == ".md";
    assert MatchesTweetGlob(f, b);
  }

  /** Whenever some candidate has never been sent, the candidate the base name
      is taken from has never been sent either: rank -1 sorts first. */
  lemma NeverSentChosenFirst(dir: seq<string>, ledger: seq<SentTweet>, d: string)
    requires d + ".md" in dir && FindIndex(ledger, d) == -1
    ensures OrderedCandidates(dir, ledger) != []
    ensures FindIndex(ledger, OrderedCandidates(dir, ledger)[0]) == -1
  {
    var ordered := OrderedCandidates(dir, ledger);
    MdStemsMatch(dir);
    assert d in MdStems(dir);
    assert d in multiset(ordered);
    var j :| 0 <= j < |ordered| && ordered[j] == d;
    if j > 0 {
      assert FindIndex(ledger, ordered[0]) <= FindIndex(ledger, ordered[j]);
    }
  }

  /** The example thread: `topicA1` sent, `topicA2` and `topicB1` not. */
  function ExampleDir(): seq<string> { ["topicA1.md", "topicA2.md", "topicB1.md"] }
  function ExampleLedger(): seq<SentTweet> { [SentTweet("topicA1", 0, "url", 1, None, None, None)] }

  /** The unsent names come first, in name order, and the sent one last. */
  lemma ExampleOrder()
    ensures OrderedCandidates(ExampleDir(), ExampleLedger()) == ["topicA2", "topicB1", "topicA1"]
  {
    var dir, ledger := ExampleDir(), ExampleLedger();
    var a1, a2, b1 := "topicA1", "topicA2", "topicB1";
    StemOfMd(dir[0]);
    StemOfMd(dir[1]);
    StemOfMd(dir[2]);
    assert EndsWith(dir[0], ".md") && EndsWith(dir[1], ".md") && EndsWith(dir[2], ".md");
    assert Stem(dir[0]) == a1 && Stem(dir[1]) == a2 && Stem(dir[2]) == b1;
    assert dir[2..][1..] == [] && dir[1..][1..] == dir[2..] && dir[1..][0] == dir[1];
    assert MdStems(dir[2..]) == [b1];
    assert MdStems(dir[1..]) == [a2, b1];
    assert MdStems(dir) == [a1, a2, b1];
    assert FindIndex(ledger, a1) == 0;
    assert FindIndex(ledger, a2) == -1 && FindIndex(ledger, b1) == -1;
    assert a2[..5] == b1[..5];
    OrdinalLeAtDifference(a2, b1, 5);
    var le := CandidateOrder(ledger);
    assert le(a2, b1) && !le(a1, a2) && !le(a1, b1);
    SortThree(a1, a2, b1, le);
  }

  lemma ExampleStrip()
    ensures StripNumbering("topicA2") == "topicA"
  {
  }

  /** The base name is `topicA`, taken from the unsent `topicA2`. */
  lemma ExampleBaseName()
    ensures GetTweetBaseName(ExampleDir(), ExampleLedger()) == Ok("topicA")
  {
    ExampleOrder();
    ExampleStrip();
  }

  /** The `topicA` glob keeps the two `topicA` files of the example. */
  lemma ExampleMatching()
    ensures Matching(ExampleDir(), "topicA") == ["topicA1.md", "topicA2.md"]
  {
    var dir := ExampleDir();
    assert MatchesTweetGlob(dir[0], "topicA") && MatchesTweetGlob(dir[1], "topicA");
    assert dir[2][5] != "topicA"[5];
    assert !MatchesTweetGlob(dir[2], "topicA");
    assert Matching(dir[2..], "topicA") == [];
  }

  /** The batch for `topicA` is both parts of the thread, in order. */
  lemma ExampleBatch()
    ensures TweetFiles(ExampleDir(), "topicA") == ["topicA1.md", "topicA2.md"]
  {
    var a1, a2 := "topicA1.md", "topicA2.md";
    ExampleMatching();
    assert a1[..6] == a2[..6];
    OrdinalLeAtDifference(a1, a2, 6);
    SortTwo(a1, a2, OrdinalOrder());
  }

  /** A candidate whose name holds a line feed after its numbering: the base
      name keeps the text after the line feed, and no file starts with it,
      so the batch is empty and nothing is published. */
  lemma LineFeedEmptyBatch()
    ensures GetTweetBaseName(["a1\nb.md"], []) == Ok("a\nb")
    ensures TweetFiles(["a1\nb.md"], "a\nb") == []
  {
    var dir: seq<string> := ["a1\nb.md"];
    var c := "a1\nb";
    StemOfMd(dir[0]);
    assert dir[0][..|dir[0]| - 3] == c;
    assert MdStems(dir[1..]) == [];
    assert MdStems(dir) == [c];
    assert Sort([c], CandidateOrder([])) == [c];
    assert c[1..] == "1\nb" && LineEnd("1\nb", 1) == 1 && "1\nb"[1..] == "\nb";
    assert StripNumbering("\nb") == "\nb" by {
      assert "\nb"[1..] == "b" && "b"[1..] == [];
    }
    assert StripNumbering(c) == "a\nb";
    assert !MatchesTweetGlob(dir[0], "a\nb") by { assert dir[0][1] != "a\nb"[1]; }
    assert Matching(dir[1..], "a\nb") == [];
  }
}
