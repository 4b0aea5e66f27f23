/**
 The frontend's `audioUrl(path)`: turns the server-side audio path stored with a
 session into the URL of the backend's `/audio/{filename}` route.
 */
module AudioLinks {
  import Sessions

  const Base := "http://127.0.0.1:8000"
  const AudioRoute := "/audio/"

  /** A JavaScript path argument: `null`/`undefined`, or a string. */
  datatype JsPath = Absent | Present(text: string)

  /** The text after the last '/', or the whole string when it has none:
      `path.split("/").pop()`. */
  function LastSegment(path: string): (seg: string)
    ensures '/' !in seg
    ensures |seg| <= |path| && seg == path[|path| - |seg|..]
    ensures |seg| < |path| ==> path[|path| - |seg| - 1] == '/'
    decreases |path|
  {
    if |path| == 0 then ""
    else if path[|path| - 1] == '/' then ""
    else
      var prev := LastSegment(path[..|path| - 1]);
      ExtendSegment(path, prev);
      prev + [path[|path| - 1]]
  }

  /** One more '/'-free character at the end extends the last segment. */
  lemma ExtendSegment(path: string, prev: string)
    requires |path| > 0 && path[|path| - 1] != '/'
    requires '/' !in prev
    requires |prev| <= |path| - 1 && prev == path[..|path| - 1][|path| - 1 - |prev|..]
    requires |prev| < |path| - 1 ==> path[..|path| - 1][|path| - 2 - |prev|] == '/'
    ensures var seg := prev + [path[|path| - 1]];
              && '/' !in seg
              && seg == path[|path| - |seg|..]
              && (|seg| < |path| ==> path[|path| - |seg| - 1] == '/')
  {
    var seg := prev + [path[|path| - 1]];
    assert path[|path| - |seg|..] == path[..|path| - 1][|path| - 1 - |prev|..] + [path[|path| - 1]];
  }

  /** `audioUrl(path)`: "" for a falsy path, else the route URL of its last
      segment. */
  function AudioUrl(path: JsPath): (url: string)
    ensures path.Absent? || path.text == "" ==> url == ""
    ensures path.Present? && path.text != "" ==>
              && |url| >= |Base + AudioRoute|
              && url[..|Base + AudioRoute|] == Base + AudioRoute
              && url[|Base + AudioRoute|..] == LastSegment(path.text)
  {
    if path.Absent? || path.text == "" then ""
    else Base + AudioRoute + LastSegment(path.text)
  }

  /** The three facts in `LastSegment`'s contract pin the segment down: any
      '/'-free suffix that is the whole path or follows a '/' is that
      segment. */
  lemma {:induction false} LastSegmentUnique(path: string, seg: string)
    requires '/' !in seg
    requires |seg| <= |path| && seg == path[|path| - |seg|..]
    requires |seg| < |path| ==> path[|path| - |seg| - 1] == '/'
    ensures seg == LastSegment(path)
    decreases |path|
  {
    if |path| > 0 && path[|path| - 1] != '/' {
      var init := path[..|path| - 1];
      var s' := ShortenSegment(path, seg);
      LastSegmentUnique(init, s');
    }
  }

  /** Dropping the last character of a path that does not end in '/' drops it
      from the segment too, and the shorter segment keeps the three facts. */
  lemma ShortenSegment(path: string, seg: string) returns (s': string)
    requires |path| > 0 && path[|path| - 1] != '/'
    requires '/' !in seg
    requires |seg| <= |path| && seg == path[|path| - |seg|..]
    requires |seg| < |path| ==> path[|path| - |seg| - 1] == '/'
    ensures seg == s' + [path[|path| - 1]]
    ensures var init := path[..|path| - 1];
              && '/' !in s'
              && |s'| <= |init| && s' == init[|init| - |s'|..]
              && (|s'| < |init| ==> init[|init| - |s'| - 1] == '/')
  {
    assert |seg| != 0;
    var init := path[..|path| - 1];
    s' := seg[..|seg| - 1];
    assert seg == s' + [path[|path| - 1]];
    assert s' == init[|init| - |s'|..];
    assert |s'| < |init| ==> init[|init| - |s'| - 1] == path[|path| - |seg| - 1];
  }

  /** `s.split("/")`: the maximal '/'-free pieces, empty ones included. */
  function Split(s: string): (parts: seq<string>)
    ensures |parts| >= 1
    ensures forall i :: 0 <= i < |parts| ==> '/' !in parts[i]
    decreases |s|
  {
    if |s| == 0 then [""]
    else
      var init := Split(s[..|s| - 1]);
      var c := s[|s| - 1];
      if c == '/' then init + [""]
      else init[..|init| - 1] + [init[|init| - 1] + [c]]
  }

  /** `parts.join("/")`. */
  function Join(parts: seq<string>): string
    requires |parts| >= 1
    decreases |parts|
  {
    if |parts| == 1 then parts[0] else Join(parts[..|parts| - 1]) + "/" + parts[|parts| - 1]
  }

  /** Splitting loses nothing: joining the pieces with '/' gives the string back. */
  lemma {:induction false} JoinSplit(s: string)
    ensures Join(Split(s)) == s
    decreases |s|
  {
    if |s| > 0 {
      var init := s[..|s| - 1];
      var c := s[|s| - 1];
      assert s == init + [c];
      var parts := Split(init);
      JoinSplit(init);
      if c == '/' {
        assert Split(s) == parts + [""];
        assert (parts + [""])[..|parts|] == parts;
        assert Join(Split(s)) == Join(parts) + "/" + "";
      } else {
        var last := parts[|parts| - 1] + [c];
        assert Split(s) == parts[..|parts| - 1] + [last];
        JoinLast(parts, c);
      }
    }
  }

  /** Appending a character to the last piece appends it to the joined string. */
  lemma JoinLast(parts: seq<string>, c: char)
    requires |parts| >= 1
    ensures Join(parts[..|parts| - 1] + [parts[|parts| - 1] + [c]]) == Join(parts) + [c]
  {
    var q := parts[..|parts| - 1] + [parts[|parts| - 1] + [c]];
    assert q[..|q| - 1] == parts[..|parts| - 1];
  }

  /** `pop()` of the split is the last segment. */
  lemma {:induction false} PopIsLastSegment(s: string)
    ensures Split(s)[|Split(s)| - 1] == LastSegment(s)
    decreases |s|
  {
    if |s| > 0 {
      PopIsLastSegment(s[..|s| - 1]);
    }
  }

  /** Round trip with the backend: the path `/transcribe` stores for a '/'-free
      session id becomes the URL `BASE + "/audio/" + sid + ".webm"`, and the
      `/audio/{filename}` route maps that filename back to the same file. */
  lemma AudioUrlRoundTrip(audioDir: string, sid: string)
    requires '/' !in sid
    ensures AudioUrl(Present(Sessions.StoredAudioPath(audioDir, sid)))
              == Base + AudioRoute + sid + Sessions.AudioExtension
    ensures Sessions.ServedAudioPath(audioDir, sid + Sessions.AudioExtension)
              == Sessions.StoredAudioPath(audioDir, sid)
  {
    var path := Sessions.StoredAudioPath(audioDir, sid);
    var file := sid + Sessions.AudioExtension;
    assert path == audioDir + "/" + file;
    assert '/' !in file by {
      forall i | 0 <= i < |file| ensures file[i] != '/' {
        if i < |sid| {
          assert file[i] == sid[i];
        }
      }
    }
    assert file == path[|path| - |file|..];
    assert path[|path| - |file| - 1] == '/';
    LastSegmentUnique(path, file);
  }
}
