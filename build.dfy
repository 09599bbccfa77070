/** The targets of the build script that change the ledger: `LoadTweets`,
    `UpdateTweets`, `Tweet` and `SaveTweets`. The network, the file system
    and the clock are the `Services` a run is given. */
module Build {
  import opened Wrappers
  import opened Text
  import opened Ledger
  import opened Selection

  datatype MediaCategory = Gif | Image

  /** One `UploadTweetImageAsync` call; the bytes are named by their file. */
  datatype MediaUpload = MediaUpload(mediaFile: string, category: MediaCategory)

  /** `PublishTweetParameters`: reply target, text and uploaded media ids. */
  datatype PublishRequest = PublishRequest(inReplyTo: Option<int>, text: string, medias: seq<int>)

  /** What `PublishTweetAsync` returns. */
  datatype Published = Published(id: int, url: string)

  /** The outside world of one run: the file names in the tweets directory
      (in glob order), the text of each file, the upload and publish calls
      (None when the call fails) and the clock, read when the ledger holds a
      given number of records. */
  datatype Services = Services(
    dir: seq<string>,
    readText: string -> string,
    upload: MediaUpload -> Option<int>,
    publish: PublishRequest -> Option<Published>,
    clock: nat -> int)

  /** The extensions of the media globs `{tweetName}*.png` and its siblings. */
  const MediaExtensions: seq<string> := [".png", ".jpeg", ".jpg", ".gif"]

  predicate IsMediaFile(f: string, tweetName: string) {
    exists ext :: ext in MediaExtensions &&
      |tweetName| + |ext| <= |f| && StartsWith(f, tweetName) && EndsWith(f, ext)
  }

  /** The media files found for a tweet, in listing order. The globs match by
      prefix, so `topicA1` also collects `topicA10.png`. */
  function MediaFiles(dir: seq<string>, tweetName: string): seq<string> {
    if dir == [] then []
    else (if IsMediaFile(dir[0], tweetName) then [dir[0]] else []) + MediaFiles(dir[1..], tweetName)
  }

  /** The media of a tweet are exactly the listed files that one of the four
      globs matches. */
  lemma {:induction false} MediaFilesMatch(dir: seq<string>, tweetName: string)
    ensures forall f :: f in MediaFiles(dir, tweetName) <==> f in dir && IsMediaFile(f, tweetName)
  {
    if dir != [] {
      MediaFilesMatch(dir[1..], tweetName);
      assert forall g :: g in dir <==> g == dir[0] || g in dir[1..];
    }
  }

  /** `x.ToString().EndsWithOrdinalIgnoreCase("gif") ? Gif : Image`. */
  function Category(f: string): MediaCategory {
    if EndsWithIgnoreCase(f, "gif") then Gif else Image
  }

  /** Every media file the globs find is a GIF exactly when its name ends in
      ".gif"; the other three extensions all give Image. */
  lemma CategoryOfMediaFile(dir: seq<string>, tweetName: string, f: string)
    requires f in MediaFiles(dir, tweetName)
    ensures Category(f) == Gif <==> EndsWith(f, ".gif")
  {
    MediaFilesMatch(dir, tweetName);
    var ext :| ext in MediaExtensions && |tweetName| + |ext| <= |f| && StartsWith(f, tweetName) && EndsWith(f, ext);
    CategoryByExtension(f, ext);
  }

  /** The category that a media extension implies. */
  lemma CategoryByExtension(f: string, ext: string)
    requires ext in MediaExtensions && EndsWith(f, ext)
    ensures Category(f) == Gif <==> EndsWith(f, ".gif")
  {
    assert f[|f| - 1] == ext[|ext| - 1] by { assert f[|f| - |ext|..][|ext| - 1] == f[|f| - 1]; }
    if ext == ".gif" {
      assert f[|f| - 3..] == f[|f| - 4..][1..];
      assert EndsWith(f, "gif");
      EndsWithIgnoresCase(f, "gif");
    } else {
      assert f[|f| - 1] == 'g';
      assert !EndsWithIgnoreCase(f, "gif") by {
        assert UpperAscii(f[|f| - 3 + 2]) != UpperAscii("gif"[2]);
      }
      assert !EndsWith(f, ".gif") by { assert ".gif"[3] == 'f'; }
    }
  }

  /** The media uploads of one tweet, one after the other in listing order;
      the first failing upload aborts the tweet. */
  function UploadAll(files: seq<string>, upload: MediaUpload -> Option<int>): Result<seq<int>, Failure> {
    if files == [] then Ok([])
    else
      var handle := upload(MediaUpload(files[0], Category(files[0])));
      if handle.None? then Err(UploadFailed(files[0]))
      else
        var rest := UploadAll(files[1..], upload);
        if rest.Err? then Err(rest.error) else Ok([handle.value] + rest.value)
  }

  /** All uploads succeed exactly when every single upload does; the media ids
      are then the ones returned, in file order, each file uploaded with its
      category. Otherwise the failure names a file whose upload failed, and
      every file before it was uploaded. */
  lemma {:induction false} UploadAllResult(files: seq<string>, upload: MediaUpload -> Option<int>)
    ensures var r := UploadAll(files, upload);
      r.Ok? <==> forall k :: 0 <= k < |files| ==> upload(MediaUpload(files[k], Category(files[k]))).Some?
    ensures var r := UploadAll(files, upload);
      r.Ok? ==> (|r.value| == |files| &&
        forall k :: 0 <= k < |files| ==> r.value[k] == upload(MediaUpload(files[k], Category(files[k]))).value)
    ensures var r := UploadAll(files, upload);
      r.Err? ==> exists k :: (0 <= k < |files| && r.error == UploadFailed(files[k]) &&
        upload(MediaUpload(files[k], Category(files[k]))).None? &&
        forall m :: 0 <= m < k ==> upload(MediaUpload(files[m], Category(files[m]))).Some?)
  {
    if files != [] {
      UploadAllResult(files[1..], upload);
      assert forall k :: 1 <= k < |files| ==> files[1..][k - 1] == files[k];
      var r := UploadAll(files, upload);
      var rest := UploadAll(files[1..], upload);
      if upload(MediaUpload(files[0], Category(files[0]))).Some? && rest.Err? {
        var k :| 0 <= k < |files[1..]| && rest.error == UploadFailed(files[1..][k]) &&
          upload(MediaUpload(files[1..][k], Category(files[1..][k]))).None? &&
          forall m :: 0 <= m < k ==> upload(MediaUpload(files[1..][m], Category(files[1..][m]))).Some?;
        assert r.error == UploadFailed(files[k + 1]);
        forall m | 0 <= m < k + 1 ensures upload(MediaUpload(files[m], Category(files[m]))).Some? {
          if m > 0 { assert files[1..][m - 1] == files[m]; }
        }
      }
    }
  }

  /** The request for one batch file: its media uploaded, its text read, and
      the given reply target. */
  function TweetRequest(replyTo: Option<int>, file: string, env: Services): (r: Result<PublishRequest, Failure>)
    ensures r.Ok? ==> r.value.inReplyTo == replyTo && r.value.text == env.readText(file)
    ensures var m := UploadAll(MediaFiles(env.dir, Stem(file)), env.upload);
      (r.Ok? <==> m.Ok?) && (r.Ok? ==> r.value.medias == m.value) && (r.Err? ==> r.error == m.error)
  {
    var media := UploadAll(MediaFiles(env.dir, Stem(file)), env.upload);
    if media.Err? then Err(media.error)
    else Ok(PublishRequest(replyTo, env.readText(file), media.value))
  }

  /** The record appended after a successful send; its counts are absent. */
  function NewRecord(file: string, sent: Published, time: int): SentTweet {
    SentTweet(Stem(file), time, sent.url, sent.id, None, None, None)
  }

  /** What the publish loop needs from the world: how a request is prepared
      for a file and a reply target, the publish call, and the clock. */
  datatype Sender = Sender(
    prepare: (Option<int>, string) -> Result<PublishRequest, Failure>,
    publish: PublishRequest -> Option<Published>,
    clock: nat -> int)

  function SenderOf(env: Services): Sender {
    Sender((replyTo, file) => TweetRequest(replyTo, file, env), env.publish, env.clock)
  }

  /** What a publish loop adds: the records appended, the requests that were
      published, and the failure that stopped it, if any. A request whose
      publish call fails is not kept. */
  datatype Run = Run(added: seq<SentTweet>, requests: seq<PublishRequest>, failure: Option<Failure>)

  /** The publish loop over `files` starting from `ledger`, as a function. Each
      request replies to the first record of the ledger as it then stands;
      the clock is read once per send, keyed by the ledger length. */
  function Publish(ledger: seq<SentTweet>, files: seq<string>, sender: Sender): Run
    decreases |files|
  {
    if files == [] then Run([], [], None)
    else
      var request := sender.prepare(ReplyTarget(ledger), files[0]);
      if request.Err? then Run([], [], Some(request.error))
      else
        var sent := sender.publish(request.value);
        if sent.None? then Run([], [], Some(PublishFailed(Stem(files[0]))))
        else
          var rec := NewRecord(files[0], sent.value, sender.clock(|ledger|));
          var rest := Publish(ledger + [rec], files[1..], sender);
          Run([rec] + rest.added, [request.value] + rest.requests, rest.failure)
  }

  /** The loop sends one request per appended record and stops before the end
      of the batch only on a failure. */
  lemma {:induction false} PublishLength(ledger: seq<SentTweet>, files: seq<string>, sender: Sender)
    decreases |files|
    ensures var r := Publish(ledger, files, sender);
      |r.added| == |r.requests| <= |files| && (r.failure.None? <==> |r.added| == |files|)
  {
    if files != [] {
      var request := sender.prepare(ReplyTarget(ledger), files[0]);
      if request.Ok? && sender.publish(request.value).Some? {
        var rec := NewRecord(files[0], sender.publish(request.value).value, sender.clock(|ledger|));
        PublishLength(ledger + [rec], files[1..], sender);
      }
    }
  }

  /** A loop that appended anything sent its first file successfully and
      went on from the ledger with that record added. */
  lemma PublishFirst(ledger: seq<SentTweet>, files: seq<string>, sender: Sender)
    requires Publish(ledger, files, sender).added != []
    ensures files != []
    ensures var request := sender.prepare(ReplyTarget(ledger), files[0]);
      request.Ok? && sender.publish(request.value).Some? &&
      var rec := NewRecord(files[0], sender.publish(request.value).value, sender.clock(|ledger|));
      var rest := Publish(ledger + [rec], files[1..], sender);
      Publish(ledger, files, sender) == Run([rec] + rest.added, [request.value] + rest.requests, rest.failure)
  {
  }

  /** The j-th send of the loop: its request is the one prepared for the j-th
      file with the reply target of the ledger as it stood after the j earlier
      sends, publishing it succeeded, and the j-th appended record holds what
      it returned. */
  lemma {:induction false} PublishStep(ledger: seq<SentTweet>, files: seq<string>, sender: Sender, j: nat)
    requires j < |Publish(ledger, files, sender).added|
    ensures var r := Publish(ledger, files, sender);
      j < |files| && j < |r.requests| &&
      sender.prepare(ReplyTarget(ledger + r.added[..j]), files[j]) == Ok(r.requests[j]) &&
      sender.publish(r.requests[j]).Some? &&
      r.added[j] == NewRecord(files[j], sender.publish(r.requests[j]).value, sender.clock(|ledger| + j))
    decreases j
  {
    PublishFirst(ledger, files, sender);
    var request := sender.prepare(ReplyTarget(ledger), files[0]);
    var rec := NewRecord(files[0], sender.publish(request.value).value, sender.clock(|ledger|));
    var rest := Publish(ledger + [rec], files[1..], sender);
    var r := Publish(ledger, files, sender);
    assert r.added == [rec] + rest.added && r.requests == [request.value] + rest.requests;
    if j == 0 {
      assert ledger + r.added[..0] == ledger;
    } else {
      PublishStep(ledger + [rec], files[1..], sender, j - 1);
      PrefixAfterFirst(ledger, rec, rest.added, j);
      assert files[1..][j - 1] == files[j];
    }
  }

  /** The ledger after j appends, seen from the ledger after the first one. */
  lemma PrefixAfterFirst(ledger: seq<SentTweet>, rec: SentTweet, more: seq<SentTweet>, j: nat)
    requires 0 < j <= |more| + 1
    ensures ledger + ([rec] + more)[..j] == (ledger + [rec]) + more[..j - 1]
  {
  }

  /** Publishing a batch of n files appends, in batch order, one record per
      tweet sent, named after its file, with the returned id and url and with
      absent counts; all n are sent unless a failure stops the loop. */
  lemma PublishAppends(ledger: seq<SentTweet>, files: seq<string>, sender: Sender)
    ensures var r := Publish(ledger, files, sender);
      |r.added| == |r.requests| <= |files| &&
      (r.failure.None? <==> |r.added| == |files|) &&
      forall j :: 0 <= j < |r.added| ==>
        sender.publish(r.requests[j]).Some? &&
        r.added[j].name == Stem(files[j]) && r.added[j].id == sender.publish(r.requests[j]).value.id &&
        r.added[j].url == sender.publish(r.requests[j]).value.url &&
        r.added[j].favoriteCount.None? && r.added[j].retweetCount.None? && r.added[j].replyCount.None?
  {
    PublishLength(ledger, files, sender);
    var r := Publish(ledger, files, sender);
    forall j | 0 <= j < |r.added|
      ensures sender.publish(r.requests[j]).Some? && r.added[j].name == Stem(files[j])
      ensures r.added[j].id == sender.publish(r.requests[j]).value.id && r.added[j].url == sender.publish(r.requests[j]).value.url
      ensures r.added[j].favoriteCount.None? && r.added[j].retweetCount.None? && r.added[j].replyCount.None?
    {
      PublishStep(ledger, files, sender, j);
    }
  }

  /** The reply target of every send is element 0 of the ledger: no reply only
      while the ledger is empty, and when it was non-empty at the start every
      send of the batch replies to that same original first record. Each
      request carries its file's text. */
  lemma PublishReplies(ledger: seq<SentTweet>, files: seq<string>, env: Services)
    ensures var r := Publish(ledger, files, SenderOf(env));
      forall j :: 0 <= j < |r.requests| ==>
        r.requests[j].inReplyTo == (if |ledger| + j == 0 then None else Some((ledger + r.added)[0].id))
    ensures var r := Publish(ledger, files, SenderOf(env));
      ledger != [] ==> forall j :: 0 <= j < |r.requests| ==> r.requests[j].inReplyTo == Some(ledger[0].id)
    ensures var r := Publish(ledger, files, SenderOf(env));
      forall j :: 0 <= j < |r.requests| && j < |files| ==> r.requests[j].text == env.readText(files[j])
    ensures var r := Publish(ledger, files, SenderOf(env));
      forall j :: 0 <= j < |r.requests| && j < |files| ==>
        var m := UploadAll(MediaFiles(env.dir, Stem(files[j])), env.upload);
        m.Ok? && r.requests[j].medias == m.value
  {
    var sender := SenderOf(env);
    PublishLength(ledger, files, sender);
    var r := Publish(ledger, files, sender);
    forall j | 0 <= j < |r.requests|
      ensures r.requests[j].inReplyTo == (if |ledger| + j == 0 then None else Some((ledger + r.added)[0].id))
      ensures r.requests[j].text == env.readText(files[j])
      ensures var m := UploadAll(MediaFiles(env.dir, Stem(files[j])), env.upload);
        m.Ok? && r.requests[j].medias == m.value
    {
      PublishStep(ledger, files, sender, j);
      var before := ledger + r.added[..j];
      assert TweetRequest(ReplyTarget(before), files[j], env) == Ok(r.requests[j]);
      if |ledger| + j > 0 {
        assert before[0] == (ledger + r.added)[0];
      }
    }
  }

  /** The placeholder row `SaveTweets` appends on every run. */
  const Placeholder: SentTweet := SentTweet("foo", 0, "moooo", 123, None, None, None)

  /** The script's state: the ledger list shared by its targets. */
  class Build {
    var sentTweets: seq<SentTweet>

    constructor ()
      ensures sentTweets == []
    {
      sentTweets := [];
    }

    /** `LoadTweets`: the ledger becomes the records read from tweets.csv. */
    method LoadTweets(records: seq<SentTweet>)
      modifies this
      ensures sentTweets == records
    {
      sentTweets := records;
    }

    /** `UpdateTweets`: fetch the counts of every record that has no
        favourite count, in ledger order, and write them into it; a failed
        fetch stops the loop and is reported. */
    method UpdateTweets(fetch: int -> Option<TweetCounts>) returns (failure: Option<Failure>)
      modifies this
      ensures sentTweets == Refresh(old(sentTweets), fetch)
      ensures var k := FetchFailureAt(old(sentTweets), fetch);
        failure == if k < |old(sentTweets)| then Some(FetchFailed(old(sentTweets)[k].id)) else None
    {
      var i := 0;
      while i < |sentTweets|
        invariant |sentTweets| == |old(sentTweets)|
        invariant i <= FetchFailureAt(old(sentTweets), fetch)
        invariant sentTweets == RefreshPrefix(old(sentTweets), fetch, i)
      {
        var t := sentTweets[i];
        if NeedsRefresh(t) {
          var counts := fetch(t.id);
          if counts.None? {
            failure := Some(FetchFailed(t.id));
            return;
          }
          sentTweets := sentTweets[i := WithCounts(t, counts.value)];
        }
        i := i + 1;
      }
      failure := None;
    }

    /** `Tweet`: choose the base name, gather the batch, and send its files. */
    method Tweet(tweetBaseName: Option<string>, env: Services) returns (requests: seq<PublishRequest>, failure: Option<Failure>)
      modifies this
      ensures var b := SelectBaseName(tweetBaseName, env.dir, old(sentTweets));
        b.Err? ==> sentTweets == old(sentTweets) && requests == [] && failure == Some(NoCandidates)
      ensures var b := SelectBaseName(tweetBaseName, env.dir, old(sentTweets));
        b.Ok? ==>
          var r := Publish(old(sentTweets), TweetFiles(env.dir, b.value), SenderOf(env));
          sentTweets == old(sentTweets) + r.added && requests == r.requests && failure == r.failure
    {
      var baseName := SelectBaseName(tweetBaseName, env.dir, sentTweets);
      if baseName.Err? {
        requests, failure := [], Some(baseName.error);
        return;
      }
      var files := TweetFiles(env.dir, baseName.value);
      requests, failure := PublishFiles(files, SenderOf(env));
    }

    /** The `foreach` over the batch: prepare each file's request with the
        current first record as reply target, send it, and append its record;
        the first failure ends the loop. */
    method PublishFiles(files: seq<string>, sender: Sender) returns (requests: seq<PublishRequest>, failure: Option<Failure>)
      modifies this
      ensures var r := Publish(old(sentTweets), files, sender);
        sentTweets == old(sentTweets) + r.added && requests == r.requests && failure == r.failure
    {
      requests := [];
      ghost var added: seq<SentTweet> := [];
      var i := 0;
      while i < |files|
        invariant i <= |files|
        invariant sentTweets == old(sentTweets) + added
        invariant var rest := Publish(sentTweets, files[i..], sender);
          Publish(old(sentTweets), files, sender) == Run(added + rest.added, requests + rest.requests, rest.failure)
      {
        assert files[i..][0] == files[i] && files[i..][1..] == files[i + 1..];
        var request := sender.prepare(ReplyTarget(sentTweets), files[i]);
        if request.Err? {
          failure := Some(request.error);
          return;
        }
        var sent := sender.publish(request.value);
        if sent.None? {
          failure := Some(PublishFailed(Stem(files[i])));
          return;
        }
        var rec := NewRecord(files[i], sent.value, sender.clock(|sentTweets|));
        ghost var rest := Publish(sentTweets + [rec], files[i + 1..], sender);
        assert added + ([rec] + rest.added) == (added + [rec]) + rest.added;
        assert requests + ([request.value] + rest.requests) == (requests + [request.value]) + rest.requests;
        sentTweets := sentTweets + [rec];
        added := added + [rec];
        requests := requests + [request.value];
        i := i + 1;
      }
      failure := None;
    }

    /** `SaveTweets`, up to the CSV write: the placeholder row is appended
        whatever the ledger holds. */
    method SaveTweets()
      modifies this
      ensures sentTweets == old(sentTweets) + [Placeholder]
    {
      sentTweets := sentTweets + [Placeholder];
    }
  }
}
