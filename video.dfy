/** The string helpers of the video player (app/components/VideoPlayer.tsx): the duration label
    and the embed addresses derived from YouTube and Vimeo links. */
module VideoPlayer {
  import opened Common

  // ---------------------------------------------------------------------------
  // Duration

  /** String.prototype.padStart(n, c) with a one-character pad. */
  function PadStart(s: string, n: nat, c: char): (r: string)
    ensures |r| == if |s| >= n then |s| else n
    ensures r[|r| - |s|..] == s
    ensures forall i :: 0 <= i < |r| - |s| ==> r[i] == c
  {
    if |s| >= n then s else seq(n - |s|, _ => c) + s
  }

  /** JavaScript's `%`: the remainder takes the sign of the dividend. */
  function JsRem(a: int, n: int): (r: int)
    requires n > 0
    ensures -n < r < n
    ensures a >= 0 ==> r >= 0
    ensures a < 0 ==> r <= 0
  {
    if a >= 0 then a % n else -((-a) % n)
  }

  /** `formatDuration(seconds)` for a whole number of seconds, None being null. The minutes are
      `Math.floor(seconds / 60)`, which for the positive divisor 60 is Dafny's division. */
  function FormatDuration(seconds: Option<int>): (r: string)
    ensures r == "" <==> seconds.None? || seconds.value == 0
  {
    if seconds.None? || seconds.value == 0 then ""
    else
      var mins := seconds.value / 60;
      var secs := JsRem(seconds.value, 60);
      IntToString(mins) + ":" + PadStart(IntToString(secs), 2, '0')
  }

  /** The seconds part of a positive duration: exactly two digits with the value below 60. */
  lemma TwoDigitSeconds(ss: nat)
    requires ss < 60
    ensures var t := PadStart(NatToString(ss), 2, '0');
            |t| == 2 && IsDigit(t[0]) && IsDigit(t[1]) && RadixValue(t, 10) == ss
  {
    var t := PadStart(NatToString(ss), 2, '0');
    if ss < 10 {
      assert NatToString(ss) == [DigitChar(ss)];
      assert t == ['0', DigitChar(ss)];
      assert t[..1] == ['0'] && RadixValue(['0'], 10) == 0;
    } else {
      assert NatToString(ss / 10) == [DigitChar(ss / 10)];
      assert |NatToString(ss)| == 2;
      assert t == NatToString(ss);
    }
  }

  /** `r` is decimal minutes, a colon and two decimal digits of seconds below 60, and
      minutes * 60 + seconds is s. */
  predicate ReadsBackAs(r: string, s: int)
  {
    var k := |r| - 3;
    k >= 1 && r[k] == ':' &&
    (forall i :: 0 <= i < |r| && i != k ==> IsDigit(r[i])) &&
    RadixValue(r[k + 1..], 10) < 60 &&
    RadixValue(r[..k], 10) * 60 + RadixValue(r[k + 1..], 10) == s
  }

  /** A positive duration reads back from its label. */
  lemma FormatDurationReadsBack(s: int)
    requires s > 0
    ensures ReadsBackAs(FormatDuration(Some(s)), s)
  {
    var m, ss := s / 60, s % 60;
    assert JsRem(s, 60) == ss;
    TwoDigitSeconds(ss);
    ReadsBackFromParts(NatToString(m), PadStart(NatToString(ss), 2, '0'), m, ss, s);
  }

  lemma ReadsBackFromParts(head: string, tail: string, m: nat, ss: nat, s: int)
    requires |head| >= 1 && (forall i :: 0 <= i < |head| ==> IsDigit(head[i])) && RadixValue(head, 10) == m
    requires |tail| == 2 && IsDigit(tail[0]) && IsDigit(tail[1]) && RadixValue(tail, 10) == ss
    requires ss < 60 && m * 60 + ss == s
    ensures ReadsBackAs(head + ":" + tail, s)
  {
    LabelParts(head, tail);
  }

  /** Minutes, a colon and two seconds digits can be told apart again. */
  lemma LabelParts(head: string, tail: string)
    requires |head| >= 1 && (forall i :: 0 <= i < |head| ==> IsDigit(head[i]))
    requires |tail| == 2 && IsDigit(tail[0]) && IsDigit(tail[1])
    ensures var r := head + ":" + tail;
            var k := |r| - 3;
            k == |head| && r[k] == ':' && r[..k] == head && r[k + 1..] == tail &&
            (forall i :: 0 <= i < |r| && i != k ==> IsDigit(r[i]))
  {
    var r := head + ":" + tail;
    assert forall i :: 0 <= i < |head| ==> r[i] == head[i];
    assert r[|head| + 1] == tail[0] && r[|head| + 2] == tail[1];
  }

  // ---------------------------------------------------------------------------
  // Pattern search

  /** `run` is the longest run of `ok` characters of `url` from position j on, and not empty. */
  ghost predicate LongestRun(url: string, j: int, run: string, ok: char -> bool)
  {
    0 <= j && j + |run| <= |url| && url[j..j + |run|] == run && |run| > 0 &&
    (forall c :: c in run ==> ok(c)) &&
    (j + |run| == |url| || !ok(url[j + |run|]))
  }

  /** The capture group when a pattern made of the literal `prefix` and then `(ok+)` matches
      at position i: the greedy run of `ok` characters after the prefix, when there is one. */
  function CaptureAt(url: string, i: nat, prefix: string, ok: char -> bool): (r: Option<string>)
    ensures r.Some? <==> OccursAt(url, prefix, i) && i + |prefix| < |url| && ok(url[i + |prefix|])
    ensures r.Some? ==> LongestRun(url, i + |prefix|, r.value, ok)
  {
    if OccursAt(url, prefix, i) then
      var rest := url[i + |prefix|..];
      var run := Span(rest, ok);
      assert run == rest[..|run|] == url[i + |prefix|..i + |prefix| + |run|];
      assert |run| > 0 <==> |rest| > 0 && ok(rest[0]);
      if run == [] then None else Some(run)
    else None
  }

  /** String.prototype.match without the `g` flag: the capture of the leftmost position, from
      i on, at which the pattern matches; `at(k)` is the capture of a match at position k. */
  function Search(url: string, i: nat, at: nat -> Option<string>): Option<string>
    decreases |url| + 1 - i
  {
    if i > |url| then None
    else if at(i).Some? then at(i)
    else Search(url, i + 1, at)
  }

  /** The search finds a match exactly when there is one, and then the leftmost. */
  lemma {:induction false} SearchIsLeftmost(url: string, i: nat, at: nat -> Option<string>)
    ensures Search(url, i, at).None? <==> forall k :: i <= k <= |url| ==> at(k).None?
    ensures Search(url, i, at).Some? ==>
              exists k :: i <= k <= |url| && at(k) == Search(url, i, at) &&
                          forall j :: i <= j < k ==> at(j).None?
    decreases |url| + 1 - i
  {
    if i <= |url| && at(i).None? {
      SearchIsLeftmost(url, i + 1, at);
      if Search(url, i, at).Some? {
        var k :| i + 1 <= k <= |url| && at(k) == Search(url, i, at) &&
                 forall j :: i + 1 <= j < k ==> at(j).None?;
        assert forall j :: i <= j < k ==> at(j).None?;
      }
    }
  }

  /** Positions without a match can be skipped. */
  lemma {:induction false} SearchSkips(url: string, i: nat, k: nat, at: nat -> Option<string>)
    requires i <= k <= |url| && forall j :: i <= j < k ==> at(j).None?
    ensures Search(url, i, at) == Search(url, k, at)
    decreases k - i
  {
    if i < k {
      SearchSkips(url, i + 1, k, at);
    }
  }

  // ---------------------------------------------------------------------------
  // YouTube

  const WatchPrefix := "youtube.com/watch?v="
  const ShortPrefix := "youtu.be/"
  const YouTubeEmbed := "https://www.youtube.com/embed/"

  /** The class `[^&\s]`. */
  predicate IdChar(c: char) { c != '&' && !IsJsSpace(c) }

  /** `(?:youtube\.com\/watch\?v=|youtu\.be\/)([^&\s]+)` tried at position i, alternatives in order. */
  function YouTubeAt(url: string, i: nat): Option<string>
  {
    var watch := CaptureAt(url, i, WatchPrefix, IdChar);
    if watch.Some? then watch else CaptureAt(url, i, ShortPrefix, IdChar)
  }

  function YouTubeAtFn(url: string): nat -> Option<string>
  {
    (i: nat) => YouTubeAt(url, i)
  }

  /** `getYouTubeEmbedUrl(url)`: the embed address of the video id the leftmost match captures,
      which is never empty; the url itself when nothing matches. */
  function YouTubeEmbedUrl(url: string): (r: string)
    ensures (forall k :: 0 <= k <= |url| ==> YouTubeAt(url, k).None?) ==> r == url
    ensures (exists k :: 0 <= k <= |url| && YouTubeAt(url, k).Some?) ==>
              exists k :: 0 <= k <= |url| && YouTubeAt(url, k).Some? &&
                          (forall j :: 0 <= j < k ==> YouTubeAt(url, j).None?) &&
                          r == YouTubeEmbed + YouTubeAt(url, k).value
  {
    var videoId := Search(url, 0, YouTubeAtFn(url));
    SearchIsLeftmost(url, 0, YouTubeAtFn(url));
    assert forall k :: YouTubeAtFn(url)(k) == YouTubeAt(url, k);
    if videoId.Some? then YouTubeEmbed + videoId.value else url
  }

  /** What a match captures: the longest run of characters other than '&' and white space
      right after one of the two prefixes. */
  lemma YouTubeCapture(url: string, i: nat)
    requires YouTubeAt(url, i).Some?
    ensures (OccursAt(url, WatchPrefix, i) &&
             LongestRun(url, i + |WatchPrefix|, YouTubeAt(url, i).value, IdChar)) ||
            (OccursAt(url, ShortPrefix, i) &&
             LongestRun(url, i + |ShortPrefix|, YouTubeAt(url, i).value, IdChar))
  {
  }

  /** A position whose character is not 'y' starts no YouTube match. */
  lemma NoYouTubeMatchWithoutY(url: string, j: nat)
    requires j < |url| && url[j] != 'y'
    ensures YouTubeAt(url, j).None?
  {
    assert WatchPrefix[0] == 'y' && ShortPrefix[0] == 'y';
    assert !OccursAt(url, WatchPrefix, j) by {
      if j + |WatchPrefix| <= |url| {
        assert url[j..j + |WatchPrefix|][0] == url[j];
      }
    }
    assert !OccursAt(url, ShortPrefix, j) by {
      if j + |ShortPrefix| <= |url| {
        assert url[j..j + |ShortPrefix|][0] == url[j];
      }
    }
  }

  /** After text `lead`, a prefix followed by a run that stops where `rest` begins is matched,
      and the run is what it captures. */
  lemma CaptureAfter(lead: string, prefix: string, run: string, rest: string, ok: char -> bool)
    requires |run| > 0 && forall c :: c in run ==> ok(c)
    requires rest == [] || !ok(rest[0])
    ensures CaptureAt(lead + prefix + run + rest, |lead|, prefix, ok) == Some(run)
  {
    var url := lead + prefix + run + rest;
    assert url[|lead|..|lead| + |prefix|] == prefix;
    assert url[|lead| + |prefix|..] == run + rest;
    SpanAppend(run, rest, ok);
  }

  /** Text without a 'y' in front of the link holds no YouTube match. */
  lemma {:induction false} SkipYouTubeLead(url: string, k: nat)
    requires k <= |url| && forall j :: 0 <= j < k ==> url[j] != 'y'
    ensures Search(url, 0, YouTubeAtFn(url)) == Search(url, k, YouTubeAtFn(url))
  {
    forall j | 0 <= j < k
      ensures YouTubeAtFn(url)(j).None?
    {
      NoYouTubeMatchWithoutY(url, j);
    }
    SearchSkips(url, 0, k, YouTubeAtFn(url));
  }

  lemma ShortLinkMatch(lead: string, id: string, rest: string)
    requires |id| > 0 && forall c :: c in id ==> IdChar(c)
    requires rest == [] || rest[0] == '&'
    ensures YouTubeAt(lead + ShortPrefix + id + rest, |lead|) == Some(id)
  {
    var url := lead + ShortPrefix + id + rest;
    CaptureAfter(lead, ShortPrefix, id, rest, IdChar);
    assert url[|lead| + 5] == ShortPrefix[5];
    NoWatchAt(url, |lead|);
  }

  /** A '.' five characters on rules out `youtube.com/watch?v=` there. */
  lemma NoWatchAt(url: string, i: nat)
    requires i + 5 < |url| && url[i + 5] == '.'
    ensures CaptureAt(url, i, WatchPrefix, IdChar).None?
  {
    if i + |WatchPrefix| <= |url| {
      assert url[i..i + |WatchPrefix|][5] == url[i + 5];
    }
  }

  /** A short link, with or without a query string, embeds its id and drops the rest. */
  lemma ShortLinkEmbeds(id: string, rest: string)
    requires |id| > 0 && forall c :: c in id ==> IdChar(c)
    requires rest == [] || rest[0] == '&'
    ensures YouTubeEmbedUrl("https://youtu.be/" + id + rest) == YouTubeEmbed + id
  {
    var lead := "https://";
    var url := lead + ShortPrefix + id + rest;
    assert url == "https://youtu.be/" + id + rest;
    assert forall j :: 0 <= j < |lead| ==> url[j] == lead[j];
    SkipYouTubeLead(url, |lead|);
    ShortLinkMatch(lead, id, rest);
  }

  /** Span reads exactly a run of passing characters when what follows it fails. */
  lemma {:induction false} SpanAppend(run: string, rest: string, ok: char -> bool)
    requires forall c :: c in run ==> ok(c)
    requires rest == [] || !ok(rest[0])
    ensures Span(run + rest, ok) == run
  {
    if run != [] {
      assert (run + rest)[1..] == run[1..] + rest;
      assert forall c :: c in run[1..] ==> c in run;
      SpanAppend(run[1..], rest, ok);
    } else {
      assert run + rest == rest;
    }
  }

  // ---------------------------------------------------------------------------
  // Vimeo

  const VimeoPrefix := "vimeo.com/"
  const VimeoPlayer := "https://player.vimeo.com/video/"

  /** `vimeo\.com\/(\d+)` tried at position i. */
  function VimeoAt(url: string, i: nat): Option<string>
  {
    CaptureAt(url, i, VimeoPrefix, IsDigit)
  }

  function VimeoAtFn(url: string): nat -> Option<string>
  {
    (i: nat) => VimeoAt(url, i)
  }

  /** `getVimeoEmbedUrl(url)`: the player address of the digits the leftmost match captures;
      the url itself when nothing matches. */
  function VimeoEmbedUrl(url: string): (r: string)
    ensures (forall k :: 0 <= k <= |url| ==> VimeoAt(url, k).None?) ==> r == url
    ensures (exists k :: 0 <= k <= |url| && VimeoAt(url, k).Some?) ==>
              exists k :: 0 <= k <= |url| && VimeoAt(url, k).Some? &&
                          (forall j :: 0 <= j < k ==> VimeoAt(url, j).None?) &&
                          LongestRun(url, k + |VimeoPrefix|, VimeoAt(url, k).value, IsDigit) &&
                          r == VimeoPlayer + VimeoAt(url, k).value
  {
    var videoId := Search(url, 0, VimeoAtFn(url));
    SearchIsLeftmost(url, 0, VimeoAtFn(url));
    assert forall k :: VimeoAtFn(url)(k) == VimeoAt(url, k);
    if videoId.Some? then VimeoPlayer + videoId.value else url
  }

  /** A plain Vimeo link embeds its numeric id, whatever follows the digits. */
  lemma VimeoLinkEmbeds(digits: string, rest: string)
    requires |digits| > 0 && forall c :: c in digits ==> IsDigit(c)
    requires rest == [] || !IsDigit(rest[0])
    ensures VimeoEmbedUrl("https://vimeo.com/" + digits + rest) == VimeoPlayer + digits
  {
    var lead := "https://";
    var url := lead + VimeoPrefix + digits + rest;
    assert url == "https://vimeo.com/" + digits + rest;
    assert forall j :: 0 <= j < |lead| ==> url[j] == lead[j];
    SkipVimeoLead(url, |lead|);
    CaptureAfter(lead, VimeoPrefix, digits, rest, IsDigit);
  }

  /** Text without a 'v' in front of the link holds no Vimeo match. */
  lemma SkipVimeoLead(url: string, k: nat)
    requires k <= |url| && forall j :: 0 <= j < k ==> url[j] != 'v'
    ensures Search(url, 0, VimeoAtFn(url)) == Search(url, k, VimeoAtFn(url))
  {
    forall j | 0 <= j < k
      ensures VimeoAtFn(url)(j).None?
    {
      assert VimeoPrefix[0] == 'v';
      if j + |VimeoPrefix| <= |url| {
        assert url[j..j + |VimeoPrefix|][0] == url[j];
      }
    }
    SearchSkips(url, 0, k, VimeoAtFn(url));
  }
}
