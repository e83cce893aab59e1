/** The untrusted-input boundaries around peer text: sanitised header fields, escaped content, and
    the message and request markers built from them. */
module Markers {

  const ZERO_WIDTH: char := '\U{200B}'

  predicate InnerCharacter(c: char) { c != '<' && c != '>' && c != ZERO_WIDTH && c != '\n' && c != '\r' }

  /** `<` only in front, `>` only at the end, nothing invisible and no line break inside. */
  predicate IsTag(t: string) {
    && |t| >= 2 && t[0] == '<' && t[|t| - 1] == '>'
    && forall k :: 0 <= k < |t| ==> InnerCharacter(t[k]) || (t[k] == '<' && k == 0) || (t[k] == '>' && k == |t| - 1)
  }

  type Tag = t: string | IsTag(t) witness "<>"

  const PEER_OPEN: Tag := "<peer_message>"
  const PEER_CLOSE: Tag := "</peer_message>"
  const REQUEST_OPEN: Tag := "<peer_request>"
  const REQUEST_CLOSE: Tag := "</peer_request>"

  const MESSAGE_TAGS: seq<Tag> := [PEER_OPEN, PEER_CLOSE]
  const REQUEST_TAGS: seq<Tag> := [REQUEST_OPEN, REQUEST_CLOSE]
  const BOUNDARY_TAGS: seq<Tag> := [PEER_OPEN, PEER_CLOSE, REQUEST_OPEN, REQUEST_CLOSE]

  lemma TagCharacters(t: Tag)
    ensures forall k :: 0 < k < |t| ==> t[k] != '<'
    ensures forall k :: 0 <= k < |t| - 1 ==> t[k] != '>'
    ensures forall k :: 0 <= k < |t| ==> t[k] != ZERO_WIDTH && t[k] != '\n' && t[k] != '\r'
    ensures '<' !in t[1..]
  {
  }

  predicate OccursAt(s: string, t: string, i: int) {
    0 <= i <= |s| - |t| && s[i..i + |t|] == t
  }

  ghost predicate Contains(s: string, t: string) {
    exists i :: OccursAt(s, t, i)
  }

  // ---------------------------------------------------------------------------
  // str.replace, escaping and sanitising
  // ---------------------------------------------------------------------------

  /** `str.replace`: leftmost occurrences first, never overlapping. */
  function Replace(s: string, t: string, with: string): string
    requires t != ""
    decreases |s|
  {
    if s == "" then ""
    else if t <= s then with + Replace(s[|t|..], t, with)
    else [s[0]] + Replace(s[1..], t, with)
  }

  function Broken(t: Tag): string
  {
    t[..1] + [ZERO_WIDTH] + t[1..]
  }

  function Escape(s: string, tags: seq<Tag>): string
    decreases |tags|
  {
    if tags == [] then s else Escape(Replace(s, tags[0], Broken(tags[0])), tags[1..])
  }

  function RemoveAll(s: string, tags: seq<Tag>): string
    decreases |tags|
  {
    if tags == [] then s else RemoveAll(Replace(s, tags[0], ""), tags[1..])
  }

  function SanitiseName(name: string): string {
    RemoveAll(OneLine(name), BOUNDARY_TAGS)
  }

  method EscapeContent(content: string, tags: seq<Tag>) returns (result: string)
    ensures result == Escape(content, tags)
  {
    result := content;
    for i := 0 to |tags|
      invariant Escape(result, tags[i..]) == Escape(content, tags)
    {
      assert tags[i..][1..] == tags[i + 1..];
      result := Replace(result, tags[i], Broken(tags[i]));
    }
  }

  method StripName(name: string) returns (cleaned: string)
    ensures cleaned == SanitiseName(name)
  {
    cleaned := Replace(Replace(name, "\r", ""), "\n", "");
    for i := 0 to |BOUNDARY_TAGS|
      invariant RemoveAll(cleaned, BOUNDARY_TAGS[i..]) == SanitiseName(name)
    {
      assert BOUNDARY_TAGS[i..][1..] == BOUNDARY_TAGS[i + 1..];
      cleaned := Replace(cleaned, BOUNDARY_TAGS[i], "");
    }
  }

  /** A prefix without `<` passes through a replacement of tags untouched. */
  lemma {:induction false} PlainPrefix(v: string, s: string, t: Tag, with: string)
    requires '<' !in v
    ensures Replace(v + s, t, with) == v + Replace(s, t, with)
  {
    if v == "" {
      assert v + s == s;
    } else {
      assert (v + s)[0] == v[0] && (v + s)[1..] == v[1..] + s;
      PlainPrefix(v[1..], s, t, with);
      assert v == [v[0]] + v[1..];
    }
  }

  lemma {:induction false} PlainPrefixBack(v: string, s: string, t: Tag)
    requires '<' !in v && v <= Replace(s, t, Broken(t))
    ensures v <= s
  {
    if v != "" {
      assert v[0] == Replace(s, t, Broken(t))[0];
      assert v[1..] <= Replace(s, t, Broken(t))[1..];
      assert !(t <= s);
      PlainPrefixBack(v[1..], s[1..], t);
      assert v == [v[0]] + v[1..] && s == [s[0]] + s[1..];
    }
  }

  lemma OccursShifted(a: string, b: string, u: string, i: int)
    requires OccursAt(b, u, i)
    ensures OccursAt(a + b, u, |a| + i)
  {
    assert (a + b)[|a| + i..|a| + i + |u|] == b[i..i + |u|];
  }

  /** An occurrence that starts behind `a` is an occurrence in `b`. */
  lemma OccursBehind(a: string, b: string, u: string, i: int)
    requires OccursAt(a + b, u, i) && i >= |a|
    ensures OccursAt(b, u, i - |a|)
  {
    assert (a + b)[i..i + |u|] == b[i - |a|..i - |a| + |u|];
  }

  /** Behind a broken tag an occurrence starts only after its last character. */
  lemma BrokenTagHidesStarts(t: Tag, tail: string, u: Tag, j: int)
    requires OccursAt(Broken(t) + tail, u, j)
    ensures j >= |Broken(t)| && OccursAt(tail, u, j - |Broken(t)|)
  {
    var b := Broken(t);
    assert b[1] == ZERO_WIDTH && forall k :: 2 <= k < |b| ==> b[k] == t[1..][k - 2];
    assert (b + tail)[j..j + |u|][0] == (b + tail)[j] && (b + tail)[j..j + |u|][1] == (b + tail)[j + 1];
    assert u[1] == u[1..][0];
    OccursBehind(b, tail, u, j);
  }

  lemma ContainsBehind(a: string, b: string, u: string)
    requires Contains(b, u)
    ensures Contains(a + b, u)
  {
    var i :| OccursAt(b, u, i);
    OccursShifted(a, b, u, i);
  }

  /** Breaking one tag leaves none of it, and makes no other tag appear. */
  lemma {:induction false} BreakingOneTag(s: string, t: Tag, u: Tag, j: int)
    requires OccursAt(Replace(s, t, Broken(t)), u, j)
    ensures u != t && Contains(s, u)
    decreases |s|
  {
    if s != "" && t <= s {
      var tail := s[|t|..];
      BrokenTagHidesStarts(t, Replace(tail, t, Broken(t)), u, j);
      BreakingOneTag(tail, t, u, j - |Broken(t)|);
      ContainsBehind(t, tail, u);
      assert s == t + tail;
    } else if s != "" && j > 0 {
      OccursBehind([s[0]], Replace(s[1..], t, Broken(t)), u, j);
      BreakingOneTag(s[1..], t, u, j - 1);
      ContainsBehind([s[0]], s[1..], u);
      assert s == [s[0]] + s[1..];
    } else {
      FirstCharacterStays(s, t, u);
    }
  }

  lemma FirstCharacterStays(s: string, t: Tag, u: Tag)
    requires OccursAt(Replace(s, t, Broken(t)), u, 0) && !(t <= s)
    ensures u <= s && u != t && Contains(s, u)
  {
    var r := Replace(s, t, Broken(t));
    assert r == [s[0]] + Replace(s[1..], t, Broken(t));
    assert u == [u[0]] + u[1..] && u[1..] == r[1..][..|u| - 1];
    PlainPrefixBack(u[1..], s[1..], t);
    assert s == [s[0]] + s[1..] && u <= s;
    assert OccursAt(s, u, 0);
  }

  /** Escaping leaves no escaped tag, and no tag at all that was not there before. */
  lemma {:induction false} EscapedTagsAreGone(s: string, tags: seq<Tag>, u: Tag)
    requires Contains(Escape(s, tags), u)
    ensures u !in tags && Contains(s, u)
    decreases |tags|
  {
    if tags != [] {
      EscapedTagsAreGone(Replace(s, tags[0], Broken(tags[0])), tags[1..], u);
      var j :| OccursAt(Replace(s, tags[0], Broken(tags[0])), u, j);
      BreakingOneTag(s, tags[0], u, j);
    }
  }

  // ---------------------------------------------------------------------------
  // Recovering the content
  // ---------------------------------------------------------------------------

  function Visible(s: string): string {
    if s == "" then "" else (if s[0] == ZERO_WIDTH then "" else [s[0]]) + Visible(s[1..])
  }

  lemma {:induction false} VisibleAppend(a: string, b: string)
    ensures Visible(a + b) == Visible(a) + Visible(b)
  {
    if a == "" {
      assert a + b == b;
    } else {
      assert (a + b)[1..] == a[1..] + b;
      VisibleAppend(a[1..], b);
    }
  }

  lemma {:induction false} VisibleOfPlain(s: string)
    ensures Visible(s) == s <==> ZERO_WIDTH !in s
    ensures |Visible(s)| <= |s|
  {
    if s != "" {
      VisibleOfPlain(s[1..]);
      assert s == [s[0]] + s[1..];
    }
  }

  lemma {:induction false} BreakingIsInvisible(s: string, t: Tag)
    ensures Visible(Replace(s, t, Broken(t))) == Visible(s)
    decreases |s|
  {
    if s != "" && t <= s {
      var tail := s[|t|..];
      BreakingIsInvisible(tail, t);
      assert s == t + tail && t == t[..1] + t[1..];
      VisibleAppend(t, tail);
      VisibleAppend(Broken(t), Replace(tail, t, Broken(t)));
      VisibleAppend(t[..1], t[1..]);
      VisibleAppend(t[..1] + [ZERO_WIDTH], t[1..]);
      VisibleAppend(t[..1], [ZERO_WIDTH]);
    } else if s != "" {
      BreakingIsInvisible(s[1..], t);
      VisibleAppend([s[0]], Replace(s[1..], t, Broken(t)));
    }
  }

  lemma {:induction false} EscapingIsInvisible(s: string, tags: seq<Tag>)
    ensures Visible(Escape(s, tags)) == Visible(s)
    decreases |tags|
  {
    if tags != [] {
      BreakingIsInvisible(s, tags[0]);
      EscapingIsInvisible(Replace(s, tags[0], Broken(tags[0])), tags[1..]);
    }
  }

  /** Removing the zero-width spaces recovers exactly the contents that had none. */
  lemma ContentIsRecoverableIff(s: string, tags: seq<Tag>)
    ensures Visible(Escape(s, tags)) == s <==> ZERO_WIDTH !in s
  {
    EscapingIsInvisible(s, tags);
    VisibleOfPlain(s);
  }

  // ---------------------------------------------------------------------------
  // Markers are lines between two tags
  // ---------------------------------------------------------------------------

  function Join(lines: seq<string>, last: string): string {
    if lines == [] then last else lines[0] + "\n" + Join(lines[1..], last)
  }

  /** A tag starts at `<`, so a caption without one adds no occurrence. */
  lemma LabelAddsNothing(caption: string, x: string, u: Tag)
    requires '<' !in caption
    ensures Contains(caption + x, u) <==> Contains(x, u)
  {
    if i :| OccursAt(caption + x, u, i) {
      assert (caption + x)[i] == u[0];
      OccursBehind(caption, x, u, i);
    }
    if i :| OccursAt(x, u, i) {
      OccursShifted(caption, x, u, i);
    }
  }

  lemma TagInTag(t: Tag, u: Tag, i: int)
    ensures OccursAt(t, u, i) <==> i == 0 && t == u
  {
    TagCharacters(t);
    if OccursAt(t, u, i) {
      assert t[i] == u[0] && t[i + |u| - 1] == u[|u| - 1];
    }
    assert t[0..|t|] == t;
  }

  lemma OccurrenceCharacters(s: string, u: string, i: int)
    requires OccursAt(s, u, i)
    ensures forall k :: i <= k < i + |u| ==> s[k] == u[k - i]
  {
    forall k | i <= k < i + |u| ensures s[k] == u[k - i] {
      assert s[i..i + |u|][k - i] == s[k];
    }
  }

  /** No occurrence crosses a line break. */
  lemma LineBreakSplits(a: string, b: string, u: Tag, i: int)
    ensures var j := i - |a| - 1;
            OccursAt(a + "\n" + b, u, i) <==> OccursAt(a, u, i) || OccursAt(b, u, j)
  {
    var s := a + "\n" + b;
    assert s == a + ("\n" + b);
    TagCharacters(u);
    if OccursAt(s, u, i) {
      OccurrenceCharacters(s, u, i);
      assert s[|a|] == '\n';
      if i > |a| {
        OccursBehind(a + "\n", b, u, i);
      } else {
        assert i + |u| <= |a|;
        assert s[i..i + |u|] == a[i..i + |u|];
      }
    }
    if OccursAt(a, u, i) {
      assert s[i..i + |u|] == a[i..i + |u|];
    }
    if OccursAt(b, u, i - |a| - 1) {
      OccursShifted(a + "\n", b, u, i - |a| - 1);
    }
  }

  ghost predicate CleanOf(lines: seq<string>, u: Tag) {
    forall k :: 0 <= k < |lines| ==> !Contains(lines[k], u)
  }

  /** `Join` ends in `last`, and what occurs from there on occurs in `last`. */
  lemma {:induction false} LastLineOccurrences(lines: seq<string>, last: string, u: Tag, i: int)
    requires i >= |Join(lines, last)| - |last|
    ensures |Join(lines, last)| >= |last|
    ensures OccursAt(Join(lines, last), u, i) <==> OccursAt(last, u, i - (|Join(lines, last)| - |last|))
    decreases |lines|
  {
    if lines != [] {
      var j := i - |lines[0]| - 1;
      LastLineOccurrences(lines[1..], last, u, j);
      LineBreakSplits(lines[0], Join(lines[1..], last), u, i);
    }
  }

  /** Above the last line a tag occurs exactly when one of the lines contains it. */
  lemma {:induction false} UpperLineOccurrences(lines: seq<string>, last: string, u: Tag)
    ensures |Join(lines, last)| >= |last|
    ensures CleanOf(lines, u) <==> forall i :: i < |Join(lines, last)| - |last| ==> !OccursAt(Join(lines, last), u, i)
    decreases |lines|
  {
    if lines != [] {
      var s, rest, shift := Join(lines, last), Join(lines[1..], last), |lines[0]| + 1;
      UpperLineOccurrences(lines[1..], last, u);
      assert CleanOf(lines, u) <==> !Contains(lines[0], u) && CleanOf(lines[1..], u) by {
        assert lines == [lines[0]] + lines[1..];
      }
      forall i ensures OccursAt(s, u, i) <==> OccursAt(lines[0], u, i) || OccursAt(rest, u, i - shift) {
        LineBreakSplits(lines[0], rest, u, i);
      }
      if i :| OccursAt(lines[0], u, i) {
        assert OccursAt(s, u, i);
      }
      if i :| i < |rest| - |last| && OccursAt(rest, u, i) {
        assert OccursAt(s, u, i + shift);
      }
    }
  }

  /** The open tag only at the start, the close tag only at the end. */
  ghost predicate WellBounded(m: string, open: Tag, close: Tag) {
    && (forall i :: OccursAt(m, open, i) <==> i == 0)
    && (forall i :: OccursAt(m, close, i) <==> i == |m| - |close|)
  }

  lemma EnclosedIff(open: Tag, lines: seq<string>, close: Tag)
    requires open != close
    ensures WellBounded(Join([open] + lines, close), open, close) <==> CleanOf(lines, open) && CleanOf(lines, close)
  {
    var m, rest := Join([open] + lines, close), Join(lines, close);
    assert ([open] + lines)[1..] == lines;
    var cut, shift := |rest| - |close|, |open| + 1;
    UpperLineOccurrences(lines, close, open);
    UpperLineOccurrences(lines, close, close);
    forall i
      ensures OccursAt(m, open, i) <==> i == 0 || OccursAt(rest, open, i - shift)
      ensures OccursAt(m, close, i) <==> OccursAt(rest, close, i - shift)
    {
      LineBreakSplits(open, rest, open, i);
      LineBreakSplits(open, rest, close, i);
      TagInTag(open, open, i);
      TagInTag(open, close, i);
    }
    forall i | i >= cut
      ensures !OccursAt(rest, open, i) && (OccursAt(rest, close, i) <==> i == cut)
    {
      LastLineOccurrences(lines, close, open, i);
      LastLineOccurrences(lines, close, close, i);
      TagInTag(close, open, i - cut);
      TagInTag(close, close, i - cut);
    }
    if WellBounded(m, open, close) {
      forall i | i < cut ensures !OccursAt(rest, open, i) && !OccursAt(rest, close, i) {
        assert OccursAt(rest, open, i) ==> OccursAt(m, open, i + shift);
        assert OccursAt(rest, close, i) ==> OccursAt(m, close, i + shift);
      }
    }
  }

  // ---------------------------------------------------------------------------
  // The two markers
  // ---------------------------------------------------------------------------

  function MessageLines(content: string, senderName: string, senderPeerId: string, messageId: string): seq<string> {
    ["From: " + SanitiseName(senderName), "Peer ID: " + senderPeerId, "Message ID: " + messageId, "",
     Escape(content, MESSAGE_TAGS)]
  }

  function PeerMessageMarker(content: string, senderName: string, senderPeerId: string, messageId: string): string {
    Join([PEER_OPEN] + MessageLines(content, senderName, senderPeerId, messageId), PEER_CLOSE)
  }

  function RequestLines(content: string, senderName: string, senderAgentId: string, requestId: string,
          summary: string): seq<string> {
    ["From: " + SanitiseName(senderName), "Sender Agent ID: " + senderAgentId, "Request ID: " + requestId,
     "Summary: " + Escape(summary, REQUEST_TAGS), "", Escape(content, REQUEST_TAGS)]
  }

  function PeerRequestMarker(content: string, senderName: string, senderAgentId: string, requestId: string,
          summary: string): string {
    Join([REQUEST_OPEN] + RequestLines(content, senderName, senderAgentId, requestId, summary), REQUEST_CLOSE)
  }

  /** A text cut at its line feeds. */
  function SplitLines(s: string): (lines: seq<string>)
    ensures lines != []
  {
    if s == "" then [""] else Prepended(s[0], SplitLines(s[1..]))
  }

  /** One more character in front of the lines. */
  function Prepended(c: char, lines: seq<string>): seq<string>
    requires lines != []
  {
    if c == '\n' then [""] + lines else [[c] + lines[0]] + lines[1..]
  }

  lemma PrependedAppends(c: char, lines: seq<string>, more: seq<string>)
    requires lines != []
    ensures Prepended(c, lines + more) == Prepended(c, lines) + more
  {
    assert (lines + more)[1..] == lines[1..] + more;
  }

  lemma {:induction false} SplitOneLine(s: string)
    requires '\n' !in s
    ensures SplitLines(s) == [s]
  {
    if s != "" {
      SplitOneLine(s[1..]);
      assert s == [s[0]] + s[1..];
    }
  }

  lemma {:induction false} SplitAtBreak(s: string, t: string)
    ensures SplitLines(s + ("\n" + t)) == SplitLines(s) + SplitLines(t)
  {
    if s == "" {
      assert s + ("\n" + t) == "\n" + t && ("\n" + t)[1..] == t;
    } else {
      SplitAtBreak(s[1..], t);
      assert (s + ("\n" + t))[0] == s[0] && (s + ("\n" + t))[1..] == s[1..] + ("\n" + t);
      PrependedAppends(s[0], SplitLines(s[1..]), SplitLines(t));
    }
  }

  /** All the lines, each cut at its own line feeds. */
  function SplitAll(lines: seq<string>): seq<string> {
    if lines == [] then [] else SplitLines(lines[0]) + SplitAll(lines[1..])
  }

  lemma JoinedFirst(lines: seq<string>, last: string)
    requires lines != []
    ensures Join(lines, last) == lines[0] + ("\n" + Join(lines[1..], last))
  {
  }

  lemma RegroupThree<T>(a: seq<T>, b: seq<T>, c: seq<T>)
    ensures a + (b + c) == (a + b) + c
  {
  }

  lemma {:induction false} SplitJoined(lines: seq<string>, last: string)
    ensures SplitLines(Join(lines, last)) == SplitAll(lines) + SplitLines(last)
  {
    if lines == [] {
      assert SplitAll(lines) + SplitLines(last) == SplitLines(last);
    } else {
      SplitJoined(lines[1..], last);
      SplitAtBreak(lines[0], Join(lines[1..], last));
      JoinedFirst(lines, last);
      RegroupThree(SplitLines(lines[0]), SplitAll(lines[1..]), SplitLines(last));
    }
  }

  lemma {:induction false} SplitHeaders(headers: seq<string>, rest: seq<string>)
    requires forall h <- headers :: '\n' !in h
    ensures SplitAll(headers + rest) == headers + SplitAll(rest)
  {
    if headers == [] {
      assert headers + rest == rest;
    } else {
      SplitOneLine(headers[0]);
      SplitHeaders(headers[1..], rest);
      assert (headers + rest)[1..] == headers[1..] + rest && headers == [headers[0]] + headers[1..];
    }
  }

  lemma SplitMarker(headers: seq<string>, text: string, last: string)
    requires (forall h <- headers :: '\n' !in h) && '\n' !in last
    ensures SplitLines(Join(headers + [text], last)) == headers + SplitLines(text) + [last]
  {
    SplitJoined(headers + [text], last);
    SplitHeaders(headers, [text]);
    SplitOneLine(last);
    assert SplitAll([text]) == SplitLines(text);
  }

  lemma NoBreakIn(title: string, value: string)
    requires '\n' !in title && '\n' !in value
    ensures '\n' !in title + value
  {
  }

  /** Whatever the sender's name holds, it adds no line to a message marker: the header is four lines and an
      empty one, in this order, and then comes the content. */
  lemma MessageHeaderReadsBack(content: string, senderName: string, senderPeerId: string, messageId: string)
    requires '\n' !in senderPeerId && '\n' !in messageId
    ensures SplitLines(PeerMessageMarker(content, senderName, senderPeerId, messageId)) ==
            ["<peer_message>", "From: " + SanitiseName(senderName), "Peer ID: " + senderPeerId, "Message ID: " + messageId, ""]
            + SplitLines(Escape(content, MESSAGE_TAGS)) + ["</peer_message>"]
  {
    SanitisedIsOneLine(senderName);
    NoBreakIn("From: ", SanitiseName(senderName));
    NoBreakIn("Peer ID: ", senderPeerId);
    NoBreakIn("Message ID: ", messageId);
    var headers := ["<peer_message>", "From: " + SanitiseName(senderName), "Peer ID: " + senderPeerId,
                    "Message ID: " + messageId, ""];
    SplitMarker(headers, Escape(content, MESSAGE_TAGS), PEER_CLOSE);
    assert [PEER_OPEN] + MessageLines(content, senderName, senderPeerId, messageId) == headers + [Escape(content, MESSAGE_TAGS)];
  }

  /** The same for a request marker; only the summary may add lines. */
  lemma RequestHeaderReadsBack(content: string, senderName: string, senderAgentId: string, requestId: string, summary: string)
    requires '\n' !in senderAgentId && '\n' !in requestId
    ensures SplitLines(PeerRequestMarker(content, senderName, senderAgentId, requestId, summary)) ==
            ["<peer_request>", "From: " + SanitiseName(senderName), "Sender Agent ID: " + senderAgentId, "Request ID: " + requestId]
            + (SplitLines("Summary: " + Escape(summary, REQUEST_TAGS)) + ([""] + SplitLines(Escape(content, REQUEST_TAGS))))
            + ["</peer_request>"]
  {
    SanitisedIsOneLine(senderName);
    NoBreakIn("From: ", SanitiseName(senderName));
    NoBreakIn("Sender Agent ID: ", senderAgentId);
    NoBreakIn("Request ID: ", requestId);
    var headers := ["<peer_request>", "From: " + SanitiseName(senderName), "Sender Agent ID: " + senderAgentId,
                    "Request ID: " + requestId];
    var gist, text := "Summary: " + Escape(summary, REQUEST_TAGS), Escape(content, REQUEST_TAGS);
    SplitMarkerWithSummary(headers, gist, text, REQUEST_CLOSE);
    assert [REQUEST_OPEN] + RequestLines(content, senderName, senderAgentId, requestId, summary) == headers + [gist, "", text];
  }

  lemma SplitMarkerWithSummary(headers: seq<string>, gist: string, text: string, last: string)
    requires (forall h <- headers :: '\n' !in h) && '\n' !in last
    ensures SplitLines(Join(headers + [gist, "", text], last)) ==
            headers + (SplitLines(gist) + ([""] + SplitLines(text))) + [last]
  {
    SplitJoined(headers + [gist, "", text], last);
    SplitHeaders(headers, [gist, "", text]);
    SplitOneLine(last);
    SplitHeaders([""], [text]);
    assert [gist, "", text][1..] == [""] + [text];
    assert SplitAll([text]) == SplitLines(text);
  }

  lemma NothingContainsATagInEmpty(u: Tag)
    ensures !Contains("", u)
  {
  }

  lemma EscapedIsClean(s: string, tags: seq<Tag>, u: Tag)
    requires u in tags
    ensures !Contains(Escape(s, tags), u)
  {
    if Contains(Escape(s, tags), u) {
      EscapedTagsAreGone(s, tags, u);
    }
  }

  lemma MessageLinesClean(content: string, senderName: string, senderPeerId: string, messageId: string, u: Tag)
    requires u in MESSAGE_TAGS
    ensures CleanOf(MessageLines(content, senderName, senderPeerId, messageId), u) <==>
            !Contains(SanitiseName(senderName), u) && !Contains(senderPeerId, u) && !Contains(messageId, u)
  {
    var lines := MessageLines(content, senderName, senderPeerId, messageId);
    LabelAddsNothing("From: ", SanitiseName(senderName), u);
    LabelAddsNothing("Peer ID: ", senderPeerId, u);
    LabelAddsNothing("Message ID: ", messageId, u);
    NothingContainsATagInEmpty(u);
    EscapedIsClean(content, MESSAGE_TAGS, u);
    assert CleanOf(lines, u) <==>
           !Contains(lines[0], u) && !Contains(lines[1], u) && !Contains(lines[2], u) && !Contains(lines[3], u) && !Contains(lines[4], u);
  }

  /** For all content the message boundary opens only at the start and closes only at the end
      exactly when no header field, as written, contains either message tag. */
  lemma MessageBoundaryIff(content: string, senderName: string, senderPeerId: string, messageId: string)
    ensures WellBounded(PeerMessageMarker(content, senderName, senderPeerId, messageId), PEER_OPEN, PEER_CLOSE) <==>
            forall u <- MESSAGE_TAGS ::
              !Contains(SanitiseName(senderName), u) && !Contains(senderPeerId, u) && !Contains(messageId, u)
  {
    EnclosedIff(PEER_OPEN, MessageLines(content, senderName, senderPeerId, messageId), PEER_CLOSE);
    assert PEER_OPEN == MESSAGE_TAGS[0] && PEER_CLOSE == MESSAGE_TAGS[1];
    MessageLinesClean(content, senderName, senderPeerId, messageId, PEER_OPEN);
    MessageLinesClean(content, senderName, senderPeerId, messageId, PEER_CLOSE);
  }

  lemma RequestLinesClean(content: string, senderName: string, senderAgentId: string, requestId: string,
          summary: string, u: Tag)
    requires u in REQUEST_TAGS
    ensures CleanOf(RequestLines(content, senderName, senderAgentId, requestId, summary), u) <==>
            !Contains(SanitiseName(senderName), u) && !Contains(senderAgentId, u) && !Contains(requestId, u)
  {
    var lines := RequestLines(content, senderName, senderAgentId, requestId, summary);
    LabelAddsNothing("From: ", SanitiseName(senderName), u);
    LabelAddsNothing("Sender Agent ID: ", senderAgentId, u);
    LabelAddsNothing("Request ID: ", requestId, u);
    LabelAddsNothing("Summary: ", Escape(summary, REQUEST_TAGS), u);
    NothingContainsATagInEmpty(u);
    EscapedIsClean(content, REQUEST_TAGS, u);
    EscapedIsClean(summary, REQUEST_TAGS, u);
    assert CleanOf(lines, u) <==>
           !Contains(lines[0], u) && !Contains(lines[1], u) && !Contains(lines[2], u) && !Contains(lines[3], u)
           && !Contains(lines[4], u) && !Contains(lines[5], u);
  }

  lemma RequestBoundaryIff(content: string, senderName: string, senderAgentId: string, requestId: string, summary: string)
    ensures WellBounded(PeerRequestMarker(content, senderName, senderAgentId, requestId, summary), REQUEST_OPEN, REQUEST_CLOSE) <==>
            forall u <- REQUEST_TAGS ::
              !Contains(SanitiseName(senderName), u) && !Contains(senderAgentId, u) && !Contains(requestId, u)
  {
    EnclosedIff(REQUEST_OPEN, RequestLines(content, senderName, senderAgentId, requestId, summary), REQUEST_CLOSE);
    assert REQUEST_OPEN == REQUEST_TAGS[0] && REQUEST_CLOSE == REQUEST_TAGS[1];
    RequestLinesClean(content, senderName, senderAgentId, requestId, summary, REQUEST_OPEN);
    RequestLinesClean(content, senderName, senderAgentId, requestId, summary, REQUEST_CLOSE);
  }

  // ---------------------------------------------------------------------------
  // The sanitiser
  // ---------------------------------------------------------------------------

  lemma {:induction false} DeletionAddsNothing(s: string, t: string, c: char)
    requires t != "" && c !in s
    ensures c !in Replace(s, t, "")
    decreases |s|
  {
    if s != "" {
      if t <= s {
        DeletionAddsNothing(s[|t|..], t, c);
      } else {
        DeletionAddsNothing(s[1..], t, c);
      }
    }
  }

  lemma {:induction false} RemovalAddsNothing(s: string, tags: seq<Tag>, c: char)
    requires c !in s
    ensures c !in RemoveAll(s, tags)
    decreases |tags|
  {
    if tags != [] {
      DeletionAddsNothing(s, tags[0], c);
      RemovalAddsNothing(Replace(s, tags[0], ""), tags[1..], c);
    }
  }

  lemma PlainHasNoTag(s: string, u: Tag)
    requires '<' !in s
    ensures !Contains(s, u)
  {
    forall i | 0 <= i <= |s| - |u| ensures !OccursAt(s, u, i) {
      assert s[i..i + |u|][0] == s[i];
    }
  }

  /** Header values without `<` always give a well-bounded message. */
  lemma PlainHeadersSuffice(content: string, senderName: string, senderPeerId: string, messageId: string)
    requires '<' !in senderName && '<' !in senderPeerId && '<' !in messageId
    ensures WellBounded(PeerMessageMarker(content, senderName, senderPeerId, messageId), PEER_OPEN, PEER_CLOSE)
  {
    DeletionAddsNothing(senderName, "\r", '<');
    DeletionAddsNothing(Replace(senderName, "\r", ""), "\n", '<');
    RemovalAddsNothing(Replace(Replace(senderName, "\r", ""), "\n", ""), BOUNDARY_TAGS, '<');
    forall u: Tag | u in MESSAGE_TAGS
      ensures !Contains(SanitiseName(senderName), u) && !Contains(senderPeerId, u) && !Contains(messageId, u)
    {
      PlainHasNoTag(SanitiseName(senderName), u);
      PlainHasNoTag(senderPeerId, u);
      PlainHasNoTag(messageId, u);
    }
    MessageBoundaryIff(content, senderName, senderPeerId, messageId);
  }

  lemma TagPrefix(t: Tag, q: Tag, b: string)
    ensures t <= q + b <==> t == q
  {
    TagCharacters(t);
    TagCharacters(q);
    assert (q + b)[..|q|] == q;
    if t <= q + b {
      assert forall k :: 0 <= k < |t| ==> t[k] == (q + b)[k];
      assert |t| <= |q| ==> (q + b)[|t| - 1] == q[|t| - 1];
      assert |q| <= |t| ==> (q + b)[|q| - 1] == q[|q| - 1];
      assert |t| == |q|;
    }
  }

  lemma ReplaceTagFirst(q: Tag, b: string, t: Tag, with: string)
    ensures Replace(q + b, t, with) == (if q == t then with else q) + Replace(b, t, with)
  {
    TagPrefix(t, q, b);
    if q == t {
      assert (q + b)[|t|..] == b;
    } else {
      assert (q + b)[0] == q[0] && (q + b)[1..] == q[1..] + b;
      PlainPrefix(q[1..], b, t, with);
      assert q == [q[0]] + q[1..];
    }
  }

  lemma NoMatchStraddles(a: string, q: Tag, b: string, t: Tag)
    requires a != ""
    ensures t <= a + q + b <==> t <= a
  {
    var s := a + q + b;
    TagCharacters(t);
    assert s[|a|] == '<';
    assert |t| <= |a| ==> s[..|t|] == a[..|t|];
  }

  lemma RegroupFour(a: string, b: string, c: string, d: string)
    ensures a + (b + c + d) == (a + b) + c + d
  {
  }

  lemma ReplaceStep(a: string, q: Tag, b: string, t: Tag, with: string)
    requires a != ""
    ensures var n, head := if t <= a then |t| else 1, if t <= a then with else [a[0]];
            && Replace(a, t, with) == head + Replace(a[n..], t, with)
            && Replace(a + q + b, t, with) == head + Replace(a[n..] + q + b, t, with)
  {
    var s, n := a + q + b, if t <= a then |t| else 1;
    NoMatchStraddles(a, q, b, t);
    assert s[n..] == a[n..] + q + b;
  }

  /** A replacement acts on the text around a tag and on the tag separately: no match straddles. */
  lemma {:induction false} ReplaceAround(a: string, q: Tag, b: string, t: Tag, with: string)
    ensures Replace(a + q + b, t, with) == Replace(a, t, with) + (if q == t then with else q) + Replace(b, t, with)
    decreases |a|
  {
    var s, mid := a + q + b, if q == t then with else q;
    if a == "" {
      assert s == q + b;
      ReplaceTagFirst(q, b, t, with);
      assert "" + mid == mid;
    } else {
      var n, head := if t <= a then |t| else 1, if t <= a then with else [a[0]];
      ReplaceStep(a, q, b, t, with);
      ReplaceAround(a[n..], q, b, t, with);
      RegroupFour(head, Replace(a[n..], t, with), mid, Replace(b, t, with));
    }
  }

  /** A tag that is not being escaped survives inside the content, wherever it stands. */
  lemma {:induction false} EmbeddedTagSurvives(a: string, q: Tag, b: string, tags: seq<Tag>)
    requires q !in tags
    ensures Escape(a + q + b, tags) == Escape(a, tags) + q + Escape(b, tags)
    decreases |tags|
  {
    if tags != [] {
      var t := tags[0];
      ReplaceAround(a, q, b, t, Broken(t));
      EmbeddedTagSurvives(Replace(a, t, Broken(t)), q, Replace(b, t, Broken(t)), tags[1..]);
    }
  }

  lemma {:induction false} ReplaceAbsent(s: string, t: string, with: string)
    requires t != "" && !Contains(s, t)
    ensures Replace(s, t, with) == s
    decreases |s|
  {
    if s != "" {
      if t <= s {
        assert OccursAt(s, t, 0);
      }
      forall i ensures !OccursAt(s[1..], t, i) {
        if OccursAt(s[1..], t, i) {
          assert s == [s[0]] + s[1..];
          OccursShifted([s[0]], s[1..], t, i);
        }
      }
      ReplaceAbsent(s[1..], t, with);
    }
  }

  /** A name without its line breaks. */
  function OneLine(name: string): string { Replace(Replace(name, "\r", ""), "\n", "") }

  /** The other characters, in order. */
  function WithoutBreaks(s: string): string {
    if s == "" then "" else (if s[0] == '\n' || s[0] == '\r' then "" else [s[0]]) + WithoutBreaks(s[1..])
  }

  function Without(s: string, c: char): string {
    if s == "" then "" else (if s[0] == c then "" else [s[0]]) + Without(s[1..], c)
  }

  lemma {:induction false} DeletingOneCharacter(s: string, c: char)
    ensures Replace(s, [c], "") == Without(s, c)
  {
    if s != "" {
      DeletingOneCharacter(s[1..], c);
      assert [c] <= s <==> s[0] == c;
    }
  }

  lemma WithoutCons(x: string, s: string, c: char)
    requires |x| <= 1
    ensures Without(x + s, c) == (if x == [c] then "" else x) + Without(s, c)
  {
    if x == "" {
      assert x + s == s;
    } else {
      assert (x + s)[1..] == s;
    }
  }

  lemma {:induction false} DeletingTwoCharacters(s: string)
    ensures Without(Without(s, '\r'), '\n') == WithoutBreaks(s)
  {
    if s != "" {
      DeletingTwoCharacters(s[1..]);
      WithoutCons(if s[0] == '\r' then "" else [s[0]], Without(s[1..], '\r'), '\n');
    }
  }

  lemma {:induction false} WithoutBreaksHasNone(s: string)
    ensures '\n' !in WithoutBreaks(s) && '\r' !in WithoutBreaks(s)
  {
    if s != "" {
      WithoutBreaksHasNone(s[1..]);
    }
  }

  /** Putting a name on one line removes its line breaks and nothing else, and none comes back. */
  lemma SanitisedIsOneLine(name: string)
    ensures OneLine(name) == WithoutBreaks(name)
    ensures '\n' !in SanitiseName(name) && '\r' !in SanitiseName(name)
  {
    DeletingOneCharacter(name, '\r');
    DeletingOneCharacter(Replace(name, "\r", ""), '\n');
    DeletingTwoCharacters(name);
    WithoutBreaksHasNone(name);
    RemovalAddsNothing(OneLine(name), BOUNDARY_TAGS, '\n');
    RemovalAddsNothing(OneLine(name), BOUNDARY_TAGS, '\r');
  }

  lemma {:induction false} RemoveAbsent(s: string, tags: seq<Tag>)
    requires forall u <- tags :: !Contains(s, u)
    ensures RemoveAll(s, tags) == s
    decreases |tags|
  {
    if tags != [] {
      assert tags[0] in tags;
      ReplaceAbsent(s, tags[0], "");
      RemoveAbsent(s, tags[1..]);
    }
  }

  /** A sender's name that, put on one line, contains none of the four tags is left as it is and is always
      safe: it may contain `<`. */
  lemma NamesWithoutTagsAreSafe(content: string, senderName: string, senderPeerId: string, messageId: string)
    requires forall u <- BOUNDARY_TAGS :: !Contains(OneLine(senderName), u)
    requires forall u <- MESSAGE_TAGS :: !Contains(senderPeerId, u) && !Contains(messageId, u)
    ensures SanitiseName(senderName) == OneLine(senderName)
    ensures WellBounded(PeerMessageMarker(content, senderName, senderPeerId, messageId), PEER_OPEN, PEER_CLOSE)
  {
    RemoveAbsent(OneLine(senderName), BOUNDARY_TAGS);
    MessageTagsAreBoundaryTags();
    MessageBoundaryIff(content, senderName, senderPeerId, messageId);
  }

  lemma MessageTagsAreBoundaryTags()
    ensures forall u <- MESSAGE_TAGS :: u in BOUNDARY_TAGS
  {
    assert BOUNDARY_TAGS[0] == PEER_OPEN && BOUNDARY_TAGS[1] == PEER_CLOSE;
  }

  lemma ClosingFreeHasNoTag(s: string, u: Tag)
    requires '>' !in s
    ensures !Contains(s, u)
  {
    forall i | 0 <= i <= |s| - |u| ensures !OccursAt(s, u, i) {
      assert s[i..i + |u|][|u| - 1] == s[i + |u| - 1];
    }
  }

  lemma {:induction false} OtherTagsStay(t: Tag, tags: seq<Tag>)
    requires t !in tags
    ensures RemoveAll(t, tags) == t
    decreases |tags|
  {
    if tags != [] {
      forall i ensures !OccursAt(t, tags[0], i) {
        TagInTag(t, tags[0], i);
      }
      ReplaceAbsent(t, tags[0], "");
      OtherTagsStay(t, tags[1..]);
    }
  }

  /** A tag cut in two around a copy of itself: removing the copy closes the gap. */
  function Nested(t: Tag, k: nat): string
    requires 0 < k < |t|
  {
    t[..k] + t + t[k..]
  }

  lemma NestedAfterOne(t: Tag, k: nat, u: Tag)
    requires 0 < k < |t|
    ensures Replace(Nested(t, k), u, "") == if u == t then t else Nested(t, k)
  {
    var front, back := t[..k], t[k..];
    assert Replace(front, u, "") == front by {
      TagCharacters(t);
      ClosingFreeHasNoTag(front, u);
      ReplaceAbsent(front, u, "");
    }
    assert Replace(back, u, "") == back by {
      TagCharacters(t);
      PlainHasNoTag(back, u);
      ReplaceAbsent(back, u, "");
    }
    ReplaceAround(front, t, back, u, "");
    CutAndPaste(t, k);
  }

  lemma CutAndPaste(s: string, k: nat)
    requires k <= |s|
    ensures s[..k] + "" + s[k..] == s
  {
  }

  lemma {:induction false} NestedTagIsRebuilt(t: Tag, k: nat, tags: seq<Tag>)
    requires 0 < k < |t| && t in tags
    requires forall i, j :: 0 <= i < j < |tags| ==> tags[i] != tags[j]
    ensures RemoveAll(Nested(t, k), tags) == t
    decreases |tags|
  {
    var u := tags[0];
    NestedAfterOne(t, k, u);
    if u == t {
      OtherTagsStay(t, tags[1..]);
    } else {
      NestedTagIsRebuilt(t, k, tags[1..]);
    }
  }

  lemma AbsentCharacter(s: string, c: char)
    requires c !in s
    ensures Replace(s, [c], "") == s
  {
    forall i | 0 <= i < |s| ensures !OccursAt(s, [c], i) {
      assert s[i..i + 1] == [s[i]];
    }
    ReplaceAbsent(s, [c], "");
  }

  lemma NestedIsOneLine(t: Tag, k: nat)
    requires 0 < k < |t|
    ensures OneLine(Nested(t, k)) == Nested(t, k)
  {
    TagCharacters(t);
    AbsentCharacter(Nested(t, k), '\r');
    AbsentCharacter(Nested(t, k), '\n');
  }

  lemma NestedSurvivesSanitising(t: Tag, k: nat)
    requires t in BOUNDARY_TAGS && 0 < k < |t|
    ensures SanitiseName(Nested(t, k)) == t
  {
    NestedIsOneLine(t, k);
    NestedTagIsRebuilt(t, k, BOUNDARY_TAGS);
  }

  /** The sanitiser removes each tag in one pass, so a nested tag comes out whole and the claim
      that the message marker is always well bounded fails. */
  lemma SanitisedNameMayBreakTheBoundary(t: Tag, k: nat, content: string, senderPeerId: string, messageId: string)
    requires t in MESSAGE_TAGS && 0 < k < |t|
    ensures SanitiseName(Nested(t, k)) == t
    ensures !WellBounded(PeerMessageMarker(content, Nested(t, k), senderPeerId, messageId), PEER_OPEN, PEER_CLOSE)
  {
    assert t in BOUNDARY_TAGS by {
      assert BOUNDARY_TAGS[0] == PEER_OPEN && BOUNDARY_TAGS[1] == PEER_CLOSE;
    }
    NestedSurvivesSanitising(t, k);
    TagInTag(t, t, 0);
    MessageBoundaryIff(content, Nested(t, k), senderPeerId, messageId);
  }

  // ---------------------------------------------------------------------------
  // A request inside a message
  // ---------------------------------------------------------------------------

  function Count(s: string, u: Tag): nat {
    if s == "" then 0 else (if u <= s then 1 else 0) + Count(s[1..], u)
  }

  lemma {:induction false} CountPlain(v: string, s: string, u: Tag)
    requires '<' !in v
    ensures Count(v + s, u) == Count(s, u)
  {
    if v == "" {
      assert v + s == s;
    } else {
      assert (v + s)[0] == v[0] && (v + s)[1..] == v[1..] + s;
      CountPlain(v[1..], s, u);
    }
  }

  lemma CountTagFirst(t: Tag, s: string, u: Tag)
    ensures Count(t + s, u) == (if t == u then 1 else 0) + Count(s, u)
  {
    TagPrefix(u, t, s);
    assert (t + s)[1..] == t[1..] + s;
    CountPlain(t[1..], s, u);
  }

  lemma CountBrokenFirst(t: Tag, s: string, u: Tag)
    ensures Count(Broken(t) + s, u) == Count(s, u)
  {
    var b := Broken(t);
    assert (b + s)[1] == ZERO_WIDTH && u[1] == u[1..][0];
    assert (b + s)[1..] == ([ZERO_WIDTH] + t[1..]) + s;
    CountPlain([ZERO_WIDTH] + t[1..], s, u);
  }

  lemma BreakingKeepsOtherPrefix(s: string, t: Tag, u: Tag)
    requires t != u && s != "" && !(t <= s)
    ensures u <= s <==> u <= Replace(s, t, Broken(t))
  {
    var r := Replace(s, t, Broken(t));
    if u <= s {
      assert s == u + s[|u|..];
      ReplaceTagFirst(u, s[|u|..], t, Broken(t));
    }
    if u <= r {
      assert u[0] == r[0] == s[0] && u[1..] <= r[1..];
      PlainPrefixBack(u[1..], s[1..], t);
      assert s == [s[0]] + s[1..] && u == [u[0]] + u[1..];
    }
  }

  /** Escaping one tag keeps the number of occurrences of every other tag. */
  lemma {:induction false} BreakingKeepsCount(s: string, t: Tag, u: Tag)
    requires t != u
    ensures Count(Replace(s, t, Broken(t)), u) == Count(s, u)
    decreases |s|
  {
    if s != "" {
      if t <= s {
        var tail := s[|t|..];
        assert s == t + tail;
        BreakingKeepsCount(tail, t, u);
        CountTagFirst(t, tail, u);
        CountBrokenFirst(t, Replace(tail, t, Broken(t)), u);
      } else {
        BreakingKeepsCount(s[1..], t, u);
        BreakingKeepsOtherPrefix(s, t, u);
        assert Replace(s, t, Broken(t))[1..] == Replace(s[1..], t, Broken(t));
      }
    }
  }

  lemma {:induction false} EscapingKeepsCount(s: string, tags: seq<Tag>, u: Tag)
    requires u !in tags
    ensures Count(Escape(s, tags), u) == Count(s, u)
    decreases |tags|
  {
    if tags != [] {
      BreakingKeepsCount(s, tags[0], u);
      EscapingKeepsCount(Replace(s, tags[0], Broken(tags[0])), tags[1..], u);
    }
  }

  lemma {:induction false} CountOfClean(s: string, u: Tag)
    ensures Count(s, u) == 0 <==> !Contains(s, u)
    decreases |s|
  {
    if s != "" {
      CountOfClean(s[1..], u);
      assert s == [s[0]] + s[1..];
      if u <= s {
        assert OccursAt(s, u, 0);
      }
      if i :| OccursAt(s[1..], u, i) {
        OccursShifted([s[0]], s[1..], u, i);
      }
      if i :| OccursAt(s, u, i) {
        if i > 0 {
          OccursBehind([s[0]], s[1..], u, i);
        } else {
          assert s[0..|u|] == s[..|u|];
        }
      }
    }
  }

  lemma {:induction false} CountAcrossLineBreak(a: string, b: string, u: Tag)
    ensures Count(a + "\n" + b, u) == Count(a, u) + Count(b, u)
    decreases |a|
  {
    var s := a + "\n" + b;
    if a == "" {
      assert s == "\n" + b;
      CountPlain("\n", b, u);
    } else {
      assert s[0] == a[0] && s[1..] == a[1..] + "\n" + b;
      CountAcrossLineBreak(a[1..], b, u);
      LineBreakSplits(a, b, u, 0);
      assert u <= s <==> OccursAt(s, u, 0);
      assert u <= a <==> OccursAt(a, u, 0);
    }
  }

  function CountAll(lines: seq<string>, u: Tag): nat {
    if lines == [] then 0 else Count(lines[0], u) + CountAll(lines[1..], u)
  }

  lemma {:induction false} CountOfJoin(lines: seq<string>, last: string, u: Tag)
    ensures Count(Join(lines, last), u) == CountAll(lines, u) + Count(last, u)
    decreases |lines|
  {
    if lines != [] {
      CountOfJoin(lines[1..], last, u);
      CountAcrossLineBreak(lines[0], Join(lines[1..], last), u);
    }
  }

  lemma PlainCaptionCount(caption: string, x: string, u: Tag)
    requires '<' !in caption && '<' !in x
    ensures Count(caption + x, u) == 0
  {
    LabelAddsNothing(caption, x, u);
    PlainHasNoTag(x, u);
    CountOfClean(caption + x, u);
  }

  /** A delivered request: the request marker is the content of a message.  Every one of the four
      boundary tags stands exactly once in the text the host receives, whatever was asked. */
  lemma DeliveredRequestIsWellBounded(content: string, summary: string, name: string, agentId: string, requestId: string,
                                      outerName: string, peerId: string, messageId: string, u: Tag)
    requires '<' !in name && '<' !in agentId && '<' !in requestId
    requires '<' !in outerName && '<' !in peerId && '<' !in messageId
    requires u in BOUNDARY_TAGS
    ensures Count(PeerMessageMarker(PeerRequestMarker(content, name, agentId, requestId, summary),
                                    outerName, peerId, messageId), u) == 1
  {
    var inner := PeerRequestMarker(content, name, agentId, requestId, summary);
    var lines := MessageLines(inner, outerName, peerId, messageId);
    MessageCount(inner, outerName, peerId, messageId, u);
    if u in MESSAGE_TAGS {
      EscapedIsClean(inner, MESSAGE_TAGS, u);
      CountOfClean(Escape(inner, MESSAGE_TAGS), u);
    } else {
      EscapingKeepsCount(inner, MESSAGE_TAGS, u);
      RequestCount(content, name, agentId, requestId, summary, u);
    }
  }

  lemma SanitisedPlain(name: string)
    requires '<' !in name
    ensures '<' !in SanitiseName(name)
  {
    DeletionAddsNothing(name, "\r", '<');
    DeletionAddsNothing(Replace(name, "\r", ""), "\n", '<');
    RemovalAddsNothing(Replace(Replace(name, "\r", ""), "\n", ""), BOUNDARY_TAGS, '<');
  }

  lemma MessageCount(content: string, name: string, peerId: string, messageId: string, u: Tag)
    requires '<' !in name && '<' !in peerId && '<' !in messageId
    ensures Count(PeerMessageMarker(content, name, peerId, messageId), u) ==
            (if u in MESSAGE_TAGS then 1 else 0) + Count(Escape(content, MESSAGE_TAGS), u)
  {
    var lines := MessageLines(content, name, peerId, messageId);
    SanitisedPlain(name);
    PlainCaptionCount("From: ", SanitiseName(name), u);
    PlainCaptionCount("Peer ID: ", peerId, u);
    PlainCaptionCount("Message ID: ", messageId, u);
    assert lines[4..] == [Escape(content, MESSAGE_TAGS)] && lines[5..] == [];
    assert CountAll(lines[3..], u) == Count(lines[4], u) + CountAll(lines[5..], u);
    assert CountAll(lines[1..], u) == CountAll(lines[2..], u);
    MarkerCount(PEER_OPEN, lines, PEER_CLOSE, u);
  }

  /** The open and close tags count once each, on top of what the lines contain. */
  lemma MarkerCount(open: Tag, lines: seq<string>, close: Tag, u: Tag)
    ensures Count(Join([open] + lines, close), u) ==
            (if u == open then 1 else 0) + CountAll(lines, u) + (if u == close then 1 else 0)
  {
    assert ([open] + lines)[1..] == lines;
    CountOfJoin([open] + lines, close, u);
    CountTagFirst(open, "", u);
    CountTagFirst(close, "", u);
    assert open + "" == open && close + "" == close;
  }

  lemma RequestCount(content: string, name: string, agentId: string, requestId: string, summary: string, u: Tag)
    requires '<' !in name && '<' !in agentId && '<' !in requestId
    requires u in REQUEST_TAGS
    ensures Count(PeerRequestMarker(content, name, agentId, requestId, summary), u) == 1
  {
    var lines := RequestLines(content, name, agentId, requestId, summary);
    SanitisedPlain(name);
    PlainCaptionCount("From: ", SanitiseName(name), u);
    PlainCaptionCount("Sender Agent ID: ", agentId, u);
    PlainCaptionCount("Request ID: ", requestId, u);
    EscapedIsClean(summary, REQUEST_TAGS, u);
    LabelAddsNothing("Summary: ", Escape(summary, REQUEST_TAGS), u);
    CountOfClean(lines[3], u);
    EscapedIsClean(content, REQUEST_TAGS, u);
    CountOfClean(lines[5], u);
    assert lines[6..] == [];
    assert CountAll(lines[4..], u) == Count(lines[4], u) + Count(lines[5], u) + CountAll(lines[6..], u);
    assert CountAll(lines[2..], u) == CountAll(lines[4..], u);
    MarkerCount(REQUEST_OPEN, lines, REQUEST_CLOSE, u);
  }
}
