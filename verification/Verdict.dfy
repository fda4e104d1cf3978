/**
 The response parser of llm_caller.py and the synthetic failure response it must understand.

 Each field is found by a case-insensitive pattern: a tag, a colon, and either one of a few
 words or a text up to the next marker. What is proved is that the documented block reads back
 as it was written, and that a failure response reads as FAILED whatever its reason says.
 */
module Verdict {
  import opened Text
  import opened Wrappers

  function Upper(c: char): char {
    if 'a' <= c <= 'z' then c - ('a' - 'A') else if c == '\U{017F}' then 'S' else if c == '\U{0131}' then 'I' else c
  }

  function ToUpper(t: string): (r: string)
    ensures |r| == |t| && forall i :: 0 <= i < |t| ==> r[i] == Upper(t[i])
  {
    seq(|t|, i requires 0 <= i < |t| => Upper(t[i]))
  }

  // ----- The patterns -----

  /** What a pattern captures: one of some words, or the shortest text before a stop or the end. */
  datatype Field = OneOf(words: seq<string>) | UpTo(stops: seq<string>)

  const VERDICTS := ["NOTIFY", "NOTE", "SUPPRESS", "FAILED"]
  const CONFIDENCES := ["HIGH", "MEDIUM", "LOW"]

  /** What follows the tag and its colon, if the text starts with them. */
  function After(t: string, tag: string): Option<string> {
    if !StartsFolded(t, tag) then None
    else
      var u := TrimLeft(t[|tag|..]);
      if u != "" && u[0] == ':' then Some(u[1..]) else None
  }

  function FirstWord(t: string, words: seq<string>): Option<string> {
    if words == [] then None
    else if StartsFolded(t, words[0]) then Some(t[..|words[0]|])
    else FirstWord(t, words[1..])
  }

  /** The end of the text, before or after a final newline, or one of the stops. */
  predicate AtStop(t: string, stops: seq<string>) {
    t == "" || t == "\n" || exists i :: 0 <= i < |stops| && StartsFolded(t, stops[i])
  }

  function Shortest(t: string, stops: seq<string>): string
    requires t != ""
  {
    if AtStop(t[1..], stops) then t[..1] else t[..1] + Shortest(t[1..], stops)
  }

  /** The capture after the colon. Of a text all blank, the last character is left to capture. */
  function Capture(t: string, field: Field): Option<string> {
    var u := TrimLeft(t);
    match field
    case OneOf(words) => FirstWord(u, words)
    case UpTo(stops) =>
      if u != "" then Some(Shortest(u, stops)) else if t != "" then Some(t[|t| - 1..]) else None
  }

  /** The leftmost match of the pattern. */
  function Search(t: string, tag: string, field: Field): Option<string> {
    var u := After(t, tag);
    if u.Some? && Capture(u.value, field).Some? then Capture(u.value, field)
    else if t == "" then None
    else Search(t[1..], tag, field)
  }

  function Stripped(o: Option<string>): Option<string> {
    if o.Some? then Some(Strip(o.value)) else None
  }

  function Uppered(o: Option<string>): Option<string> {
    if o.Some? then Some(ToUpper(o.value)) else None
  }

  datatype Parsed = Parsed(verdict: Option<string>, confidence: Option<string>, summary: Option<string>,
                           reasoning: Option<string>, missingInfo: Option<string>, parseError: Option<string>)

  predicate Found(o: Option<string>) {
    o.Some? && o.value != ""
  }

  function ErrorOf(verdict: Option<string>, confidence: Option<string>): Option<string> {
    if Found(verdict) && Found(confidence) then None
    else if Found(confidence) then Some("Could not parse VERDICT")
    else if Found(verdict) then Some(" | Could not parse CONFIDENCE")
    else Some("Could not parse VERDICT | Could not parse CONFIDENCE")
  }

  const SUMMARY_STOPS := ["\nREASONING", "\nMISSING"]
  const REASONING_STOPS := ["\nMISSING"]

  function ParseLlmResponse(t: string): Parsed {
    if t == "" then Parsed(None, None, None, None, None, Some("Empty response"))
    else
      var verdict := Stripped(Search(t, "VERDICT", OneOf(VERDICTS)));
      var confidence := Stripped(Search(t, "CONFIDENCE", OneOf(CONFIDENCES)));
      Parsed(Uppered(verdict), Uppered(confidence),
             Stripped(Search(t, "SUMMARY", UpTo(SUMMARY_STOPS))),
             Stripped(Search(t, "REASONING", UpTo(REASONING_STOPS))),
             Stripped(Search(t, "MISSING INFO", UpTo([]))),
             ErrorOf(verdict, confidence))
  }

  /** The documented response format. */
  function Block(verdict: string, confidence: string, summary: string, reasoning: string, missing: string): string {
    "VERDICT: " + verdict + "\nCONFIDENCE: " + confidence + "\nSUMMARY: " + summary
    + "\nREASONING: " + reasoning + "\nMISSING INFO: " + missing
  }

  const NO_TRIAGE := "LLM triage unavailable for this alert."
  const WHAT_IS_MISSING :=
    "Pipeline could not obtain LLM analysis. "
    + "Review this alert manually using the enrichment data shipped "
    + "alongside (zeek flows, ntopng data, host context, baseline). "
    + "If FAILED verdicts are recurring, investigate LLM endpoint health "
    + "(Ollama service, API keys, network connectivity)."

  function SynthesizeFailure(reason: string): string {
    Block("FAILED", "HIGH", NO_TRIAGE, reason, WHAT_IS_MISSING)
  }

  // ----- Passing over what comes before a tag -----

  /** No match of the tag starts inside `pre` when `post` follows it. */
  ghost predicate Quiet(pre: string, post: string, tag: string) {
    forall i :: 0 <= i < |pre| ==> After(pre[i..] + post, tag).None?
  }

  lemma {:induction false} SearchPasses(pre: string, post: string, tag: string, field: Field)
    requires Quiet(pre, post, tag)
    ensures Search(pre + post, tag, field) == Search(post, tag, field)
    decreases |pre|
  {
    if pre == "" {
      assert pre + post == post;
    } else {
      assert pre[0..] == pre;
      assert (pre + post)[1..] == pre[1..] + post;
      forall i | 0 <= i < |pre| - 1 ensures After(pre[1..][i..] + post, tag).None? {
        assert pre[1..][i..] == pre[i + 1..];
      }
      SearchPasses(pre[1..], post, tag, field);
    }
  }

  /** The text holds no match of the tag and its colon. */
  ghost predicate Unlabelled(s: string, tag: string) {
    forall i :: 0 <= i < |s| ==> After(s[i..], tag).None?
  }

  /** A new line that starts with a word. */
  predicate NewLine(rest: string) {
    |rest| > 1 && rest[0] == '\n' && !IsSpace(rest[1]) && rest[1] != ':'
  }

  predicate OneLine(tag: string) {
    tag != "" && forall k :: 0 <= k < |tag| ==> Fold(tag[k]) != '\n'
  }

  lemma {:induction false} SkipThrough(u: string, rest: string)
    requires NewLine(rest)
    ensures TrimLeft(u + rest) == if TrimLeft(u) == "" then rest[1..] else TrimLeft(u) + rest
    decreases |u|
  {
    if u == "" {
      assert u + rest == rest && TrimLeft(rest) == TrimLeft(rest[1..]) == rest[1..];
    } else if IsSpace(u[0]) {
      assert (u + rest)[1..] == u[1..] + rest;
      SkipThrough(u[1..], rest);
    }
  }

  lemma NoStraddle(u: string, rest: string, tag: string)
    requires NewLine(rest) && OneLine(tag) && After(u, tag).None?
    ensures After(u + rest, tag).None?
  {
    if StartsFolded(u, tag) {
      assert (u + rest)[|tag|..] == u[|tag|..] + rest;
      SkipThrough(u[|tag|..], rest);
    } else {
      MarkNotYet(u, rest, tag);
    }
  }

  lemma TextIsQuiet(s: string, rest: string, tag: string)
    requires Unlabelled(s, tag) && NewLine(rest) && OneLine(tag)
    ensures Quiet(s, rest, tag)
  {
    forall i | 0 <= i < |s| ensures After(s[i..] + rest, tag).None? {
      NoStraddle(s[i..], rest, tag);
    }
  }

  /** A line lacks the tag if, wherever the tag could fit, its `k`-th letter is missing. */
  lemma LetterMissing(line: string, tag: string, k: nat)
    requires k < |tag| && forall j :: k <= j <= |line| - |tag| + k ==> Fold(line[j]) != Fold(tag[k])
    ensures Unlabelled(line, tag)
  {
    forall i | 0 <= i < |line| ensures After(line[i..], tag).None? {
      if |line| - i >= |tag| {
        assert line[i..][k] == line[i + k];
      }
    }
  }

  /** One of the first two letters of the tag contradicts the text at `i`. */
  predicate ClashesAt(head: string, i: nat, tag: string)
    requires i < |head| && |tag| > 1
  {
    Fold(head[i]) != Fold(tag[0]) || (i + 1 < |head| && Fold(head[i + 1]) != Fold(tag[1]))
  }

  /** A head is passed over if each of its places contradicts the first two letters of the tag. */
  lemma HeadIsQuiet(head: string, post: string, tag: string)
    requires |tag| > 1 && forall i :: 0 <= i < |head| ==> ClashesAt(head, i, tag)
    ensures Quiet(head, post, tag)
  {
    forall i | 0 <= i < |head| ensures After(head[i..] + post, tag).None? {
      var t := head[i..] + post;
      assert ClashesAt(head, i, tag);
      if Fold(head[i]) != Fold(tag[0]) {
        assert t[0] == head[i];
      } else {
        assert t[1] == head[i..][1] == head[i + 1];
      }
    }
  }

  // ----- Captures -----

  lemma AfterLabel(tag: string, rest: string)
    ensures After(tag + ":" + rest, tag) == Some(rest)
  {
    var t := tag + ":" + rest;
    assert t[|tag|..] == ":" + rest && (":" + rest)[1..] == rest;
  }

  /** No stop begins inside the text. */
  ghost predicate Unstopped(s: string, stops: seq<string>) {
    forall i, j :: 0 <= i < |s| && 0 <= j < |stops| ==> !StartsFolded(s[i..], stops[j])
  }

  /** Stops are a newline and a word. */
  ghost predicate Stops(stops: seq<string>) {
    forall j :: 0 <= j < |stops| ==>
      |stops[j]| > 1 && stops[j][0] == '\n' && 'A' <= stops[j][1] <= 'Z' && OneLine(stops[j][1..])
  }

  lemma NotYet(u: string, rest: string, stops: seq<string>)
    requires u != "" && NewLine(rest) && Stops(stops)
    requires forall j :: 0 <= j < |stops| ==> !StartsFolded(u, stops[j])
    ensures !AtStop(u + rest, stops)
  {
    forall j | 0 <= j < |stops| ensures !StartsFolded(u + rest, stops[j]) {
      assert forall k :: 0 < k < |stops[j]| ==> stops[j][k] == stops[j][1..][k - 1];
      MarkNotYet(u, rest, stops[j]);
    }
  }

  /**
   A mark that does not start `u`, and has no newline but perhaps
   its first letter, does not start `u + rest` either.
   */
  lemma MarkNotYet(u: string, rest: string, mark: string)
    requires rest != "" && rest[0] == '\n' && !StartsFolded(u, mark)
    requires forall k :: 0 <= k < |mark| && (k > 0 || u == "") ==> Fold(mark[k]) != '\n'
    ensures !StartsFolded(u + rest, mark)
  {
    if |u| >= |mark| {
      var k :| 0 <= k < |mark| && Fold(u[k]) != Fold(mark[k]);
      assert (u + rest)[k] == u[k];
    } else {
      assert (u + rest)[|u|] == rest[0] && Fold(mark[|u|]) != '\n';
    }
  }

  lemma {:induction false} ShortestIsText(v: string, rest: string, stops: seq<string>)
    requires v != "" && NewLine(rest) && Stops(stops) && Unstopped(v, stops) && AtStop(rest, stops)
    ensures Shortest(v + rest, stops) == v
    decreases |v|
  {
    var t := v + rest;
    assert t[1..] == v[1..] + rest && t[..1] == v[..1];
    if |v| == 1 {
      assert v[1..] + rest == rest;
    } else {
      forall j | 0 <= j < |stops| ensures !StartsFolded(v[1..], stops[j]) {
      }
      NotYet(v[1..], rest, stops);
      forall i, j | 0 <= i < |v[1..]| && 0 <= j < |stops| ensures !StartsFolded(v[1..][i..], stops[j]) {
        assert v[1..][i..] == v[i + 1..];
      }
      ShortestIsText(v[1..], rest, stops);
    }
  }

  lemma {:induction false} SkipIsSuffix(t: string)
    ensures |TrimLeft(t)| <= |t| && TrimLeft(t) == t[|t| - |TrimLeft(t)|..]
  {
    if t != "" && IsSpace(t[0]) {
      SkipIsSuffix(t[1..]);
    }
  }

  /** Not blank, and without a stop once the white space before it is dropped. */
  ghost predicate FieldText(s: string, stops: seq<string>) {
    TrimLeft(s) != "" && Unstopped(TrimLeft(s), stops)
  }

  /** Such a text is captured, up to white space at its ends. */
  lemma CaptureIsText(s: string, rest: string, stops: seq<string>)
    requires FieldText(s, stops) && NewLine(rest) && Stops(stops) && AtStop(rest, stops)
    ensures Stripped(Capture(" " + s + rest, UpTo(stops))) == Some(Strip(s))
  {
    hide AtStop, Stops, Unstopped, NewLine, Shortest, IsSpace;
    SkipBlank(s + rest);
    assert " " + (s + rest) == " " + s + rest;
    SkipThrough(s, rest);
    ShortestIsText(TrimLeft(s), rest, stops);
    SkipTwice(s);
  }

  /** Some stop begins at `e`, and none before. */
  ghost predicate FirstStopAt(v: string, stops: seq<string>, e: nat) {
    e < |v| && (exists j :: 0 <= j < |stops| && StartsFolded(v[e..], stops[j]))
    && forall i, j :: 0 <= i < e && 0 <= j < |stops| ==> !StartsFolded(v[i..], stops[j])
  }

  lemma {:induction false} FirstStop(v: string, stops: seq<string>, from: nat) returns (e: nat)
    requires !Unstopped(v, stops) && from <= |v|
    requires forall i, j :: 0 <= i < from && 0 <= j < |stops| ==> !StartsFolded(v[i..], stops[j])
    ensures FirstStopAt(v, stops, e)
    decreases |v| - from
  {
    hide StartsFolded;
    if from < |v| && forall j :: 0 <= j < |stops| ==> !StartsFolded(v[from..], stops[j]) {
      e := FirstStop(v, stops, from + 1);
    } else {
      e := from;
    }
  }

  /** A text cut off at its first stop holds none. */
  lemma CutUnstopped(v: string, stops: seq<string>, e: nat)
    requires FirstStopAt(v, stops, e)
    ensures Unstopped(v[..e], stops)
  {
    forall i, j | 0 <= i < e && 0 <= j < |stops| ensures !StartsFolded(v[..e][i..], stops[j]) {
      var k :| |v[i..]| < |stops[j]| || (0 <= k < |stops[j]| && Fold(v[i..][k]) != Fold(stops[j][k]));
      if 0 <= k < |stops[j]| && i + k < e {
        assert v[..e][i..][k] == v[i..][k];
      }
    }
  }

  /** What begins with a stop begins a new line. */
  lemma StopIsNewLine(y: string, rest: string, stops: seq<string>, j: nat)
    requires Stops(stops) && j < |stops| && StartsFolded(y, stops[j])
    ensures NewLine(y + rest) && AtStop(y + rest, stops) && |y| > 1 && !IsSpace(y[1])
  {
    assert Fold(y[0]) == Fold(stops[j][0]) == '\n';
    assert Fold(y[1]) == Fold(stops[j][1]);
    LetterIsNoSpace(y[1]);
    assert forall k :: 0 <= k < |y| ==> (y + rest)[k] == y[k];
  }

  /** The letters that fold to English ones are no white space. */
  lemma LetterIsNoSpace(c: char)
    requires 'a' <= Fold(c) <= 'z'
    ensures !IsSpace(c) && c != ':' && c != '\n'
  {
  }

  lemma {:induction false} TrimRightBeyond(v: string, j: nat)
    requires j < |v| && !IsSpace(v[j])
    ensures |TrimRight(v)| > j
    decreases |v|
  {
    if IsSpace(v[|v| - 1]) {
      TrimRightBeyond(v[..|v| - 1], j);
    }
  }

  lemma {:induction false} TrimRightWithin(v: string)
    ensures |TrimRight(v)| <= |v|
  {
    if v != "" && IsSpace(v[|v| - 1]) {
      TrimRightWithin(v[..|v| - 1]);
    }
  }

  lemma {:induction false} ShortestHead(t: string, stops: seq<string>)
    requires t != ""
    ensures Shortest(t, stops) != "" && Shortest(t, stops)[0] == t[0]
  {
  }

  lemma {:induction false} TrimLeftCut(s: string, e: nat)
    requires 0 < e <= |TrimLeft(s)| <= |s|
    ensures TrimLeft(s[..|s| - |TrimLeft(s)| + e]) == TrimLeft(s)[..e]
    decreases |s|
  {
    if IsSpace(s[0]) {
      SkipIsSuffix(s[1..]);
      TrimLeftCut(s[1..], e);
      assert s[..|s| - |TrimLeft(s)| + e][1..] == s[1..][..|s| - 1 - |TrimLeft(s)| + e];
    }
  }

  /** Of a blank text something else is captured: what comes after it. */
  lemma BlankNotCaptured(s: string, rest: string, stops: seq<string>)
    requires TrimLeft(s) == "" && NewLine(rest)
    ensures var o := Capture(" " + s + rest, UpTo(stops)); o.Some? && Strip(o.value) != Strip(s)
  {
    SkipBlank(s + rest);
    assert " " + (s + rest) == " " + s + rest;
    SkipThrough(s, rest);
    hide Shortest, IsSpace;
    ShortestHead(rest[1..], stops);
    HeadStays(Shortest(rest[1..], stops));
  }

  lemma HeadStays(w: string)
    requires w != "" && !IsSpace(w[0])
    ensures Strip(w) != ""
  {
    assert TrimLeft(w) == w;
    TrimRightBeyond(w, 0);
  }

  /** The text before the first stop, and the rest, which begins with it. */
  lemma CutPieces(s: string, rest: string, stops: seq<string>, e: nat) returns (a: string, y: string)
    requires TrimLeft(s) != "" && FirstStopAt(TrimLeft(s), stops, e) && Stops(stops)
    ensures s == a + y && TrimLeft(a) == TrimLeft(s)[..e] && FieldText(a, stops)
    ensures NewLine(y + rest) && AtStop(y + rest, stops)
    ensures TrimRight(TrimLeft(s)[..e]) != TrimRight(TrimLeft(s))
  {
    var v := TrimLeft(s);
    CutStarts(v, rest, stops, e);
    CutUnstopped(v, stops, e);
    hide Unstopped, FirstStopAt, NewLine, AtStop, TrimLeft, TrimRight, Stops, IsSpace;
    a, y := CutText(s, e);
  }

  lemma CutText(s: string, e: nat) returns (a: string, y: string)
    requires 0 < e < |TrimLeft(s)|
    ensures s == a + y && TrimLeft(a) == TrimLeft(s)[..e] != "" && y == TrimLeft(s)[e..]
  {
    var v := TrimLeft(s);
    SkipIsSuffix(s);
    TrimLeftCut(s, e);
    a, y := s[..|s| - |v| + e], v[e..];
    assert s[|s| - |v|..][e..] == y;
  }

  lemma CutStarts(v: string, rest: string, stops: seq<string>, e: nat)
    requires FirstStopAt(v, stops, e) && Stops(stops) && v != "" && !IsSpace(v[0])
    ensures 0 < e < |v| && NewLine(v[e..] + rest) && AtStop(v[e..] + rest, stops)
    ensures TrimRight(v[..e]) != TrimRight(v)
  {
    var j :| 0 <= j < |stops| && StartsFolded(v[e..], stops[j]);
    assert Fold(v[e..][0]) == Fold(stops[j][0]) && v[e..][0] == v[e];
    StopIsNewLine(v[e..], rest, stops, j);
    TrimRightWithin(v[..e]);
    TrimRightBeyond(v, e + 1);
  }

  /** A text with a stop is captured up to its first one, which is not the whole text. */
  lemma CutAtStop(s: string, rest: string, stops: seq<string>, e: nat)
    requires TrimLeft(s) != "" && FirstStopAt(TrimLeft(s), stops, e) && Stops(stops)
    ensures var o := Capture(" " + s + rest, UpTo(stops));
            o.Some? && Strip(o.value) == TrimRight(TrimLeft(s)[..e]) && Strip(o.value) != Strip(s)
  {
    hide FirstStopAt, Stops, FieldText, NewLine, AtStop, Capture, TrimLeft, TrimRight;
    var a, y := CutPieces(s, rest, stops, e);
    CaptureIsText(a, y + rest, stops);
    assert " " + a + (y + rest) == " " + s + rest;
  }

  /** What a field captures is its text, white space at the ends aside, exactly for such texts. */
  lemma CaptureExactly(s: string, rest: string, stops: seq<string>)
    requires NewLine(rest) && Stops(stops) && AtStop(rest, stops)
    ensures var o := Capture(" " + s + rest, UpTo(stops));
            o.Some? && (Strip(o.value) == Strip(s) <==> FieldText(s, stops))
  {
    if FieldText(s, stops) {
      CaptureIsText(s, rest, stops);
    } else if TrimLeft(s) == "" {
      BlankNotCaptured(s, rest, stops);
    } else {
      var e := FirstStop(TrimLeft(s), stops, 0);
      CutAtStop(s, rest, stops, e);
    }
  }

  lemma SkipBlank(t: string)
    ensures TrimLeft(" " + t) == TrimLeft(t)
  {
    assert (" " + t)[1..] == t;
  }

  lemma SkipBlankStrip(t: string)
    ensures Strip(" " + t) == Strip(t)
  {
    SkipBlank(t);
  }

  lemma SkipTwice(t: string)
    ensures TrimLeft(TrimLeft(t)) == TrimLeft(t)
  {
  }

  lemma {:induction false} ShortestToEnd(v: string)
    requires v != ""
    ensures Shortest(v, []) == v || (|v| > 1 && v[|v| - 1] == '\n' && Shortest(v, []) == v[..|v| - 1])
    decreases |v|
  {
    assert v == v[..1] + v[1..];
    if |v| == 1 {
      assert v[1..] == "" && v[..1] == v;
    } else if v[1..] == "\n" {
      assert |v| == 2 && v[1] == v[1..][0] && v[..1] == v[..|v| - 1];
    } else {
      var w := Shortest(v[1..], []);
      ShortestToEnd(v[1..]);
      if w != v[1..] {
        assert v[1..][..|v| - 2] == v[1..|v| - 1] && v[..|v| - 1] == v[..1] + v[1..|v| - 1];
      }
    }
  }

  lemma {:induction false} BlankEnds(t: string)
    requires t != "" && TrimLeft(t) == ""
    ensures IsSpace(t[|t| - 1])
    decreases |t|
  {
    if |t| > 1 {
      BlankEnds(t[1..]);
    }
  }

  /** The last field takes everything that is left, white space at the ends aside. */
  lemma CaptureToEnd(t: string)
    requires t != ""
    ensures Stripped(Capture(t, UpTo([]))) == Some(Strip(t))
  {
    var v := TrimLeft(t);
    if v == "" {
      BlankEnds(t);
      assert t[|t| - 1..] == [t[|t| - 1]] && TrimLeft(t[|t| - 1..]) == "";
    } else {
      ShortestToEnd(v);
      var w := Shortest(v, []);
      assert TrimLeft(v) == v;
      if w != v {
        assert w[0] == v[0] && TrimLeft(w) == w;
        assert TrimRight(v) == TrimRight(w);
      }
    }
  }

  lemma {:induction false} TrimRightEnds(v: string)
    ensures |TrimRight(v)| <= |v| && (TrimRight(v) != "" ==> !IsSpace(v[|TrimRight(v)| - 1]))
    decreases |v|
  {
    if v != "" && IsSpace(v[|v| - 1]) {
      TrimRightEnds(v[..|v| - 1]);
    }
  }

  /** More text before it, not all blank, makes a text longer, white space at the ends aside. */
  lemma LongerStripped(pre: string, m: string)
    requires pre != "" && !IsSpace(pre[0])
    ensures Strip(pre + m) != Strip(m)
  {
    var v := TrimLeft(m);
    assert TrimLeft(pre + m) == pre + m;
    SkipIsSuffix(m);
    TrimRightEnds(v);
    var n := |TrimRight(v)|;
    if n == 0 {
      TrimRightBeyond(pre + m, 0);
    } else {
      var last := |pre| + |m| - |v| + n - 1;
      assert (pre + m)[last] == m[|m| - |v|..][n - 1];
      TrimRightBeyond(pre + m, last);
    }
  }

  // ----- The block read back -----

  lemma QuietAppend(pre: string, mid: string, post: string, tag: string)
    requires Quiet(pre, mid + post, tag) && Quiet(mid, post, tag)
    ensures Quiet(pre + mid, post, tag)
  {
    forall i | 0 <= i < |pre + mid| ensures After((pre + mid)[i..] + post, tag).None? {
      if i < |pre| {
        assert (pre + mid)[i..] + post == pre[i..] + (mid + post);
      } else {
        assert (pre + mid)[i..] == mid[i - |pre|..];
      }
    }
  }

  lemma SearchHere(t: string, tag: string, field: Field, body: string)
    requires After(t, tag) == Some(body) && Capture(body, field).Some?
    ensures Search(t, tag, field) == Capture(body, field)
  {
  }

  lemma NewlineFirst(t: string, tag: string, field: Field)
    requires OneLine(tag) && t != "" && t[0] == '\n'
    ensures Search(t, tag, field) == Search(t[1..], tag, field)
  {
    assert Fold(t[0]) != Fold(tag[0]);
  }

  lemma FieldFound(pre: string, tag: string, body: string, field: Field)
    requires OneLine(tag) && Quiet(pre, "\n" + tag + ":" + body, tag) && Capture(body, field).Some?
    ensures Search(pre + "\n" + tag + ":" + body, tag, field) == Capture(body, field)
  {
    var rest := "\n" + tag + ":" + body;
    hide Capture, After, OneLine;
    assert pre + "\n" + tag + ":" + body == pre + rest;
    SearchPasses(pre, rest, tag, field);
    assert rest[1..] == tag + ":" + body;
    AfterLabel(tag, body);
    SearchHere(rest[1..], tag, field, body);
    NewlineFirst(rest, tag, field);
  }

  function VerdictLine(verdict: string): string {
    "VERDICT: " + verdict
  }

  function ConfidenceLine(confidence: string): string {
    "\nCONFIDENCE: " + confidence
  }

  lemma VerdictLinePlain(v: string)
    requires v in VERDICTS
    ensures Unlabelled(VerdictLine(v), "CONFIDENCE") && Unlabelled(VerdictLine(v), "SUMMARY")
    ensures Unlabelled(VerdictLine(v), "REASONING") && Unlabelled(VerdictLine(v), "MISSING INFO")
  {
    var line := VerdictLine(v);
    assert v == "NOTIFY" || v == "NOTE" || v == "SUPPRESS" || v == "FAILED";
    LetterMissing(line, "CONFIDENCE", 8);
    LetterMissing(line, "SUMMARY", 2);
    LetterMissing(line, "REASONING", 8);
    LetterMissing(line, "MISSING INFO", 0);
  }

  lemma ConfidenceLinePlain(c: string)
    requires c in CONFIDENCES
    ensures Unlabelled(ConfidenceLine(c), "SUMMARY")
    ensures Unlabelled(ConfidenceLine(c), "REASONING") && Unlabelled(ConfidenceLine(c), "MISSING INFO")
  {
    var line := ConfidenceLine(c);
    LetterMissing(line, "SUMMARY", 0);
    LetterMissing(line, "REASONING", 3);
    LetterMissing(line, "MISSING INFO", 2);
  }

  /** The word is one of these, and its `k`-th letter sets it apart from the earlier ones. */
  ghost predicate Told(w: string, words: seq<string>, k: nat) {
    w in words && k < |w| && !IsSpace(w[0])
    && forall j :: 0 <= j < |words| && words[j] != w ==> k < |words[j]| && Fold(words[j][k]) != Fold(w[k])
  }

  lemma {:induction false} FirstWordIs(w: string, rest: string, words: seq<string>, k: nat)
    requires Told(w, words, k)
    ensures FirstWord(w + rest, words) == Some(w)
  {
    if words[0] == w {
      assert (w + rest)[..|w|] == w;
    } else {
      assert (w + rest)[k] == w[k];
      forall j | 0 <= j < |words[1..]| && words[1..][j] != w
        ensures k < |words[1..][j]| && Fold(words[1..][j][k]) != Fold(w[k])
      {
        assert words[1..][j] == words[j + 1];
      }
      FirstWordIs(w, rest, words[1..], k);
    }
  }

  lemma WordCaptured(w: string, rest: string, words: seq<string>, k: nat)
    requires Told(w, words, k)
    ensures Capture(" " + w + rest, OneOf(words)) == Some(w)
  {
    assert (" " + w + rest)[1..] == w + rest;
    assert TrimLeft(w + rest) == w + rest;
    FirstWordIs(w, rest, words, k);
  }

  lemma WordsTold(v: string, c: string)
    requires v in VERDICTS && c in CONFIDENCES
    ensures Told(v, VERDICTS, 3) && Told(c, CONFIDENCES, 0)
  {
    assert v == "NOTIFY" || v == "NOTE" || v == "SUPPRESS" || v == "FAILED";
    assert c == "HIGH" || c == "MEDIUM" || c == "LOW";
  }

  lemma VerdictFound(v: string, rest: string)
    requires Told(v, VERDICTS, 3)
    ensures Search(VerdictLine(v) + rest, "VERDICT", OneOf(VERDICTS)) == Some(v)
  {
    hide Told, Capture, After;
    var body := " " + v + rest;
    WordCaptured(v, rest, VERDICTS, 3);
    AfterLabel("VERDICT", body);
    assert VerdictLine(v) + rest == "VERDICT" + ":" + body;
    SearchHere(VerdictLine(v) + rest, "VERDICT", OneOf(VERDICTS), body);
  }

  lemma WordFound(pre: string, tag: string, w: string, rest: string, words: seq<string>, k: nat)
    requires Told(w, words, k) && Unlabelled(pre, tag) && OneLine(tag) && NewLine("\n" + tag)
    ensures Search(pre + "\n" + tag + ": " + w + rest, tag, OneOf(words)) == Some(w)
  {
    var body := " " + w + rest;
    var line := "\n" + tag + ":" + body;
    assert line[0] == '\n' && line[1] == ("\n" + tag)[1];
    WordCaptured(w, rest, words, k);
    TextIsQuiet(pre, line, tag);
    FieldFound(pre, tag, body, OneOf(words));
    assert pre + "\n" + tag + ": " + w + rest == pre + "\n" + tag + ":" + body;
  }

  lemma ConfidenceFound(v: string, c: string, rest: string)
    requires v in VERDICTS && Told(c, CONFIDENCES, 0)
    ensures Search(VerdictLine(v) + ConfidenceLine(c) + rest, "CONFIDENCE", OneOf(CONFIDENCES)) == Some(c)
  {
    hide Told, Search, Unlabelled;
    VerdictLinePlain(v);
    WordFound(VerdictLine(v), "CONFIDENCE", c, rest, CONFIDENCES, 0);
    assert VerdictLine(v) + ConfidenceLine(c) + rest == VerdictLine(v) + "\n" + "CONFIDENCE" + ": " + c + rest;
  }

  lemma HeadPassed(v: string, c: string, rest: string, tag: string)
    requires v in VERDICTS && c in CONFIDENCES && NewLine(rest)
    requires tag == "SUMMARY" || tag == "REASONING" || tag == "MISSING INFO"
    ensures Quiet(VerdictLine(v) + ConfidenceLine(c), rest, tag)
  {
    VerdictLinePlain(v);
    ConfidenceLinePlain(c);
    TextIsQuiet(VerdictLine(v), ConfidenceLine(c) + rest, tag);
    TextIsQuiet(ConfidenceLine(c), rest, tag);
    QuietAppend(VerdictLine(v), ConfidenceLine(c), rest, tag);
  }

  lemma TextCaptured(pre: string, tag: string, s: string, rest: string, stops: seq<string>)
    requires Quiet(pre, "\n" + tag + ": " + s + rest, tag) && OneLine(tag)
    requires NewLine(rest) && Stops(stops) && AtStop(rest, stops)
    ensures Capture(" " + s + rest, UpTo(stops)).Some?
    ensures Search(pre + "\n" + tag + ": " + s + rest, tag, UpTo(stops)) == Capture(" " + s + rest, UpTo(stops))
  {
    hide *;
    var body := " " + s + rest;
    CaptureExactly(s, rest, stops);
    assert "\n" + tag + ": " + s + rest == "\n" + tag + ":" + body;
    FieldFound(pre, tag, body, UpTo(stops));
    assert pre + "\n" + tag + ": " + s + rest == pre + "\n" + tag + ":" + body;
  }

  lemma SomeStripped(o: Option<string>, w: string)
    requires Stripped(o) == Some(w)
    ensures o.Some?
  {
  }

  function ReasoningPart(r: string): string {
    "\nREASONING: " + r
  }

  function MissingPart(m: string): string {
    "\nMISSING INFO: " + m
  }

  lemma StopLists()
    ensures Stops(SUMMARY_STOPS) && Stops(REASONING_STOPS)
  {
  }

  lemma TagsPlain(tag: string, x: string)
    requires tag == "SUMMARY" || tag == "REASONING" || tag == "MISSING INFO"
    ensures OneLine(tag) && NewLine("\n" + tag + ": " + x)
  {
  }

  lemma PartsStop(r: string, m: string, rest: string)
    ensures NewLine(ReasoningPart(r) + rest) && AtStop(ReasoningPart(r) + rest, SUMMARY_STOPS)
    ensures NewLine(MissingPart(m)) && AtStop(MissingPart(m), REASONING_STOPS)
  {
    assert StartsFolded(ReasoningPart(r) + rest, SUMMARY_STOPS[0]);
    assert StartsFolded(MissingPart(m), REASONING_STOPS[0]);
  }

  lemma SummaryCaptured(v: string, c: string, s: string, rest: string)
    requires v in VERDICTS && c in CONFIDENCES && NewLine(rest) && AtStop(rest, SUMMARY_STOPS)
    ensures Search(VerdictLine(v) + ConfidenceLine(c) + "\nSUMMARY: " + s + rest, "SUMMARY", UpTo(SUMMARY_STOPS))
         == Capture(" " + s + rest, UpTo(SUMMARY_STOPS))
  {
    hide *;
    var pre := VerdictLine(v) + ConfidenceLine(c);
    TagsPlain("SUMMARY", s + rest);
    assert "\n" + "SUMMARY" + ": " + (s + rest) == "\n" + "SUMMARY" + ": " + s + rest;
    HeadPassed(v, c, "\n" + "SUMMARY" + ": " + s + rest, "SUMMARY");
    StopLists();
    TextCaptured(pre, "SUMMARY", s, rest, SUMMARY_STOPS);
    assert pre + "\n" + "SUMMARY" + ": " + s + rest == pre + "\nSUMMARY: " + s + rest;
  }

  /** A part is passed over if its text is. */
  lemma PartPassed(pre: string, head: string, s: string, rest: string, tag: string)
    requires Quiet(pre, head + s + rest, tag) && NewLine(rest) && OneLine(tag) && Unlabelled(s, tag)
    requires Quiet(head, s + rest, tag)
    ensures Quiet(pre + head + s, rest, tag)
  {
    hide *;
    TextIsQuiet(s, rest, tag);
    assert head + (s + rest) == head + s + rest;
    QuietAppend(pre, head, s + rest, tag);
    QuietAppend(pre + head, s, rest, tag);
  }

  lemma HeadsPassed(post: string)
    ensures Quiet("\nSUMMARY: ", post, "REASONING") && Quiet("\nSUMMARY: ", post, "MISSING INFO")
    ensures Quiet("\nREASONING: ", post, "MISSING INFO")
  {
    HeadIsQuiet("\nSUMMARY: ", post, "REASONING");
    HeadIsQuiet("\nSUMMARY: ", post, "MISSING INFO");
    HeadIsQuiet("\nREASONING: ", post, "MISSING INFO");
  }

  lemma SummaryPassed(v: string, c: string, s: string, rest: string, tag: string)
    requires v in VERDICTS && c in CONFIDENCES && NewLine(rest)
    requires (tag == "REASONING" || tag == "MISSING INFO") && Unlabelled(s, tag)
    ensures Quiet(VerdictLine(v) + ConfidenceLine(c) + "\nSUMMARY: " + s, rest, tag)
  {
    hide *;
    TagsPlain("SUMMARY", s + rest);
    TagsPlain(tag, "");
    assert "\n" + "SUMMARY" + ": " + (s + rest) == "\nSUMMARY: " + s + rest;
    HeadPassed(v, c, "\nSUMMARY: " + s + rest, tag);
    HeadsPassed(s + rest);
    PartPassed(VerdictLine(v) + ConfidenceLine(c), "\nSUMMARY: ", s, rest, tag);
  }

  lemma ReasoningCaptured(v: string, c: string, s: string, r: string, rest: string)
    requires v in VERDICTS && c in CONFIDENCES && Unlabelled(s, "REASONING")
    requires NewLine(rest) && AtStop(rest, REASONING_STOPS)
    ensures Search(VerdictLine(v) + ConfidenceLine(c) + "\nSUMMARY: " + s + "\nREASONING: " + r + rest,
                   "REASONING", UpTo(REASONING_STOPS))
         == Capture(" " + r + rest, UpTo(REASONING_STOPS))
  {
    hide *;
    var pre := VerdictLine(v) + ConfidenceLine(c) + "\nSUMMARY: " + s;
    TagsPlain("REASONING", r + rest);
    assert "\n" + "REASONING" + ": " + (r + rest) == "\n" + "REASONING" + ": " + r + rest;
    SummaryPassed(v, c, s, "\n" + "REASONING" + ": " + r + rest, "REASONING");
    StopLists();
    TextCaptured(pre, "REASONING", r, rest, REASONING_STOPS);
    assert pre + "\n" + "REASONING" + ": " + r + rest == pre + "\nREASONING: " + r + rest;
  }

  lemma LastParts(r: string, m: string)
    ensures var last := "\n" + "MISSING INFO" + ":" + (" " + m);
            && last == MissingPart(m) && NewLine(last)
            && NewLine("\nREASONING: " + r + last)
            && "\nREASONING: " + (r + last) == "\nREASONING: " + r + last
  {
  }

  lemma LastJoined(pre: string, m: string)
    ensures pre + "\nMISSING INFO: " + m == pre + "\n" + "MISSING INFO" + ":" + (" " + m)
  {
    assert "\nMISSING INFO: " + m == "\n" + "MISSING INFO" + ":" + (" " + m);
  }

  lemma ReasoningPassed(pre: string, r: string, last: string)
    requires Quiet(pre, "\nREASONING: " + r + last, "MISSING INFO") && NewLine(last) && Unlabelled(r, "MISSING INFO")
    ensures Quiet(pre + "\nREASONING: " + r, last, "MISSING INFO")
  {
    hide *;
    TagsPlain("MISSING INFO", "");
    HeadsPassed(r + last);
    PartPassed(pre, "\nREASONING: ", r, last, "MISSING INFO");
  }

  lemma MissingFound(v: string, c: string, s: string, r: string, m: string)
    requires v in VERDICTS && c in CONFIDENCES
    requires Unlabelled(s, "MISSING INFO") && Unlabelled(r, "MISSING INFO")
    ensures Stripped(Search(VerdictLine(v) + ConfidenceLine(c) + "\nSUMMARY: " + s + "\nREASONING: " + r
                            + "\nMISSING INFO: " + m,
                            "MISSING INFO", UpTo([]))) == Some(Strip(m))
  {
    hide *;
    var last := "\n" + "MISSING INFO" + ":" + (" " + m);
    var pre := VerdictLine(v) + ConfidenceLine(c) + "\nSUMMARY: " + s;
    LastParts(r, m);
    TagsPlain("MISSING INFO", "");
    SummaryPassed(v, c, s, "\nREASONING: " + r + last, "MISSING INFO");
    ReasoningPassed(pre, r, last);
    CaptureToEnd(" " + m);
    SkipBlankStrip(m);
    SomeStripped(Capture(" " + m, UpTo([])), Strip(m));
    FieldFound(pre + "\nREASONING: " + r, "MISSING INFO", " " + m, UpTo([]));
    LastJoined(pre + "\nREASONING: " + r, m);
  }

  /** The first match of the tag in the text begins at `i`. */
  ghost predicate FirstLabelAt(s: string, tag: string, i: nat) {
    i < |s| && After(s[i..], tag).Some? && forall k :: 0 <= k < i ==> After(s[k..], tag).None?
  }

  lemma {:induction false} FirstLabel(s: string, tag: string, from: nat) returns (i: nat)
    requires !Unlabelled(s, tag) && from <= |s| && forall k :: 0 <= k < from ==> After(s[k..], tag).None?
    ensures FirstLabelAt(s, tag, i)
    decreases |s| - from
  {
    hide After;
    if from < |s| && After(s[from..], tag).None? {
      i := FirstLabel(s, tag, from + 1);
    } else {
      i := from;
    }
  }

  lemma AfterLonger(u: string, rest: string, tag: string)
    requires After(u, tag).Some? && NewLine(rest)
    ensures After(u + rest, tag) == Some(After(u, tag).value + rest)
  {
    var v := TrimLeft(u[|tag|..]);
    assert (u + rest)[|tag|..] == u[|tag|..] + rest;
    SkipThrough(u[|tag|..], rest);
    assert (v + rest)[1..] == v[1..] + rest;
  }

  lemma LabelReached(s: string, rest: string, tag: string, i: nat)
    requires NewLine(rest) && OneLine(tag) && FirstLabelAt(s, tag, i)
    ensures Quiet(s[..i], s[i..] + rest, tag)
  {
    hide After, NewLine, OneLine;
    forall k | 0 <= k < |s[..i]| ensures After(s[..i][k..] + (s[i..] + rest), tag).None? {
      assert s[..i][k..] + (s[i..] + rest) == s[k..] + rest;
      NoStraddle(s[k..], rest, tag);
    }
  }

  lemma CaptureSome(t: string)
    requires t != ""
    ensures Capture(t, UpTo([])).Some?
  {
    hide Strip;
    CaptureToEnd(t);
  }

  lemma FoundBeyond(pre: string, head: string, tail: string, tag: string, body: string)
    requires Quiet(pre, head + tail, tag) && Quiet(head, tail, tag) && After(tail, tag) == Some(body) && body != ""
    ensures Search(pre + (head + tail), tag, UpTo([])) == Capture(body, UpTo([]))
  {
    hide *;
    QuietAppend(pre, head, tail, tag);
    SearchPasses(pre + head, tail, tag, UpTo([]));
    assert pre + (head + tail) == pre + head + tail;
    CaptureSome(body);
    SearchHere(tail, tag, UpTo([]), body);
  }

  /** Up to its first match of the tag a text is passed over. */
  lemma LabelFound(pre: string, s: string, rest: string, tag: string, i: nat)
    requires Quiet(pre, s + rest, tag) && NewLine(rest) && OneLine(tag) && FirstLabelAt(s, tag, i)
    ensures Search(pre + s + rest, tag, UpTo([])) == Capture(After(s[i..], tag).value + rest, UpTo([]))
  {
    var body := After(s[i..], tag).value + rest;
    LabelReached(s, rest, tag, i);
    AfterLonger(s[i..], rest, tag);
    assert s + rest == s[..i] + (s[i..] + rest) && body != "";
    hide *;
    assert pre + s + rest == pre + (s + rest);
    FoundBeyond(pre, s[..i], s[i..] + rest, tag, body);
  }

  /** What follows a label, the true last field included, is not that field's text. */
  lemma NotTheLastField(body: string, m: string)
    ensures Strip(body + MissingPart(m)) != Strip(m)
  {
    var rest := MissingPart(m);
    assert NewLine(rest) && rest[1..] == "MISSING INFO: " + m;
    SkipThrough(body, rest);
    var v := TrimLeft(body);
    SkipTwice(body + rest);
    if v == "" {
      LongerStripped("MISSING INFO: ", m);
    } else {
      var pre := v + "\nMISSING INFO: ";
      assert v + rest == pre + m && pre[0] == v[0];
      LongerStripped(pre, m);
    }
  }

  /** The text is in capital letters. */
  predicate Capitals(t: string) {
    t != "" && forall i :: 0 <= i < |t| ==> 'A' <= t[i] <= 'Z'
  }

  lemma CapitalsPlain(t: string)
    requires Capitals(t)
    ensures Strip(t) == t && ToUpper(t) == t
  {
  }

  lemma WordsPlain(v: string, c: string)
    requires v in VERDICTS && c in CONFIDENCES
    ensures Strip(v) == v && ToUpper(v) == v && Strip(c) == c && ToUpper(c) == c && v != "" && c != ""
  {
    assert v == "NOTIFY" || v == "NOTE" || v == "SUPPRESS" || v == "FAILED";
    assert c == "HIGH" || c == "MEDIUM" || c == "LOW";
    CapitalsPlain(v);
    CapitalsPlain(c);
  }

  lemma BlockFrom(v: string, c: string, s: string, r: string, m: string)
    ensures var rest := ReasoningPart(r) + MissingPart(m);
            && Block(v, c, s, r, m) == VerdictLine(v) + (ConfidenceLine(c) + "\nSUMMARY: " + s + rest)
            && Block(v, c, s, r, m) == VerdictLine(v) + ConfidenceLine(c) + ("\nSUMMARY: " + s + rest)
            && Block(v, c, s, r, m) == VerdictLine(v) + ConfidenceLine(c) + "\nSUMMARY: " + s + rest
  {
  }

  lemma BlockTo(v: string, c: string, s: string, r: string, m: string)
    ensures Block(v, c, s, r, m)
         == VerdictLine(v) + ConfidenceLine(c) + "\nSUMMARY: " + s + "\nREASONING: " + r + "\nMISSING INFO: " + m
    ensures Block(v, c, s, r, m)
         == VerdictLine(v) + ConfidenceLine(c) + "\nSUMMARY: " + s + "\nREASONING: " + r + MissingPart(m)
    ensures Block(v, c, s, r, m) != ""
  {
  }

  /** How the parsed fields come from the searches. */
  lemma ParsedFields(t: string, v: string, c: string)
    requires t != "" && v != "" && c != "" && Strip(v) == v && ToUpper(v) == v && Strip(c) == c && ToUpper(c) == c
    requires Search(t, "VERDICT", OneOf(VERDICTS)) == Some(v) && Search(t, "CONFIDENCE", OneOf(CONFIDENCES)) == Some(c)
    ensures var p := ParseLlmResponse(t);
            && p.verdict == Some(v) && p.confidence == Some(c) && p.parseError == None
            && p.summary == Stripped(Search(t, "SUMMARY", UpTo(SUMMARY_STOPS)))
            && p.reasoning == Stripped(Search(t, "REASONING", UpTo(REASONING_STOPS)))
            && p.missingInfo == Stripped(Search(t, "MISSING INFO", UpTo([])))
  {
    hide Search, Strip, ToUpper;
  }

  lemma WordsFound(v: string, c: string, s: string, r: string, m: string)
    requires v in VERDICTS && c in CONFIDENCES
    ensures Search(Block(v, c, s, r, m), "VERDICT", OneOf(VERDICTS)) == Some(v)
    ensures Search(Block(v, c, s, r, m), "CONFIDENCE", OneOf(CONFIDENCES)) == Some(c)
  {
    hide *;
    BlockFrom(v, c, s, r, m);
    WordsTold(v, c);
    var rest := ReasoningPart(r) + MissingPart(m);
    VerdictFound(v, ConfidenceLine(c) + "\nSUMMARY: " + s + rest);
    ConfidenceFound(v, c, "\nSUMMARY: " + s + rest);
  }

  /**
   Verdict and confidence of a block are read back whatever its
   texts say, and the summary exactly if it is a field text.
   */
  lemma FirstFieldsReadBack(v: string, c: string, s: string, r: string, m: string)
    requires v in VERDICTS && c in CONFIDENCES
    ensures var p := ParseLlmResponse(Block(v, c, s, r, m));
            && p.verdict == Some(v) && p.confidence == Some(c) && p.parseError == None
            && (p.summary == Some(Strip(s)) <==> FieldText(s, ["\nREASONING", "\nMISSING"]))
  {
    assert SUMMARY_STOPS == ["\nREASONING", "\nMISSING"];
    BlockFrom(v, c, s, r, m);
    BlockTo(v, c, s, r, m);
    hide *;
    WordsPlain(v, c);
    WordsFound(v, c, s, r, m);
    PartsStop(r, m, MissingPart(m));
    StopLists();
    var rest := ReasoningPart(r) + MissingPart(m);
    SummaryCaptured(v, c, s, rest);
    CaptureExactly(s, rest, SUMMARY_STOPS);
    ParsedFields(Block(v, c, s, r, m), v, c);
    StrippedSome(Capture(" " + s + rest, UpTo(SUMMARY_STOPS)), s);
  }

  lemma StrippedSome(o: Option<string>, s: string)
    requires o.Some?
    ensures Stripped(o) == Some(Strip(s)) <==> Strip(o.value) == Strip(s)
  {
    hide Strip;
  }

  /** The reasoning of a block is read back exactly if it is a field text, once the summary holds no reasoning label. */
  lemma ReasoningReadsBack(v: string, c: string, s: string, r: string, m: string)
    requires v in VERDICTS && c in CONFIDENCES && Unlabelled(s, "REASONING")
    ensures ParseLlmResponse(Block(v, c, s, r, m)).reasoning == Some(Strip(r)) <==> FieldText(r, ["\nMISSING"])
  {
    assert REASONING_STOPS == ["\nMISSING"];
    BlockTo(v, c, s, r, m);
    hide *;
    WordsPlain(v, c);
    WordsFound(v, c, s, r, m);
    PartsStop(r, m, MissingPart(m));
    StopLists();
    ReasoningCaptured(v, c, s, r, MissingPart(m));
    CaptureExactly(r, MissingPart(m), REASONING_STOPS);
    ParsedFields(Block(v, c, s, r, m), v, c);
    StrippedSome(Capture(" " + r + MissingPart(m), UpTo(REASONING_STOPS)), r);
  }

  /** A label in the reasoning takes the place of the last field: all that follows it is read. */
  lemma LabelTakesOver(v: string, c: string, s: string, r: string, m: string, i: nat)
    requires v in VERDICTS && c in CONFIDENCES && Unlabelled(s, "MISSING INFO") && FirstLabelAt(r, "MISSING INFO", i)
    ensures ParseLlmResponse(Block(v, c, s, r, m)).missingInfo
         == Some(Strip(After(r[i..], "MISSING INFO").value + MissingPart(m)))
  {
    BlockTo(v, c, s, r, m);
    var pre := VerdictLine(v) + ConfidenceLine(c) + "\nSUMMARY: " + s;
    var last := MissingPart(m);
    var body := After(r[i..], "MISSING INFO").value + last;
    assert body != "";
    hide *;
    LastParts(r, m);
    TagsPlain("MISSING INFO", "");
    SummaryPassed(v, c, s, "\nREASONING: " + r + last, "MISSING INFO");
    HeadsPassed(r + last);
    QuietAppend(pre, "\nREASONING: ", r + last, "MISSING INFO");
    LabelFound(pre + "\nREASONING: ", r, last, "MISSING INFO", i);
    CaptureToEnd(body);
    WordsPlain(v, c);
    WordsFound(v, c, s, r, m);
    ParsedFields(Block(v, c, s, r, m), v, c);
  }

  /** The last text of a block is read back exactly if its label does not occur before it. */
  lemma MissingReadsBack(v: string, c: string, s: string, r: string, m: string)
    requires v in VERDICTS && c in CONFIDENCES && Unlabelled(s, "MISSING INFO")
    ensures ParseLlmResponse(Block(v, c, s, r, m)).missingInfo == Some(Strip(m)) <==> Unlabelled(r, "MISSING INFO")
  {
    BlockTo(v, c, s, r, m);
    hide ParseLlmResponse, Block, Strip, Search, After, MissingPart, VerdictLine, ConfidenceLine;
    if Unlabelled(r, "MISSING INFO") {
      hide *;
      MissingFound(v, c, s, r, m);
      WordsPlain(v, c);
      WordsFound(v, c, s, r, m);
      ParsedFields(Block(v, c, s, r, m), v, c);
    } else {
      var i := FirstLabel(r, "MISSING INFO", 0);
      LabelTakesOver(v, c, s, r, m, i);
      NotTheLastField(After(r[i..], "MISSING INFO").value, m);
    }
  }

  /**
   A block whose summary and reasoning are field texts without the labels of later fields reads back as it
   was written, white space at the ends aside.
   */
  lemma BlockReadsBack(v: string, c: string, s: string, r: string, m: string)
    requires v in VERDICTS && c in CONFIDENCES
    requires FieldText(s, ["\nREASONING", "\nMISSING"]) && Unlabelled(s, "REASONING") && Unlabelled(s, "MISSING INFO")
    requires FieldText(r, ["\nMISSING"]) && Unlabelled(r, "MISSING INFO")
    ensures ParseLlmResponse(Block(v, c, s, r, m))
         == Parsed(Some(v), Some(c), Some(Strip(s)), Some(Strip(r)), Some(Strip(m)), None)
  {
    BlockTo(v, c, s, r, m);
    hide *;
    WordsPlain(v, c);
    WordsFound(v, c, s, r, m);
    FirstFieldsReadBack(v, c, s, r, m);
    ReasoningReadsBack(v, c, s, r, m);
    MissingFound(v, c, s, r, m);
    ParsedFields(Block(v, c, s, r, m), v, c);
  }

  lemma FailureWords()
    ensures "FAILED" in VERDICTS && "HIGH" in CONFIDENCES
  {
    assert "FAILED" == VERDICTS[3] && "HIGH" == CONFIDENCES[0];
  }

  /**
   A synthesized failure is understood as one, whatever the reason says; and what is missing is the fixed
   text exactly if the reason has no label for it.
   */
  lemma FailureUnderstood(reason: string)
    ensures var p := ParseLlmResponse(SynthesizeFailure(reason));
            && p.verdict == Some("FAILED") && p.confidence == Some("HIGH")
            && p.summary == Some(NO_TRIAGE) && p.parseError == None
            && (p.missingInfo == Some(WHAT_IS_MISSING) <==> Unlabelled(reason, "MISSING INFO"))
  {
    NoTriageText();
    FailureWords();
    hide ParseLlmResponse, FieldText, Unlabelled, Strip;
    NoTriageLabel();
    WhatIsMissingText();
    FailureIsBlock(reason);
    FirstFieldsReadBack("FAILED", "HIGH", NO_TRIAGE, reason, WHAT_IS_MISSING);
    MissingReadsBack("FAILED", "HIGH", NO_TRIAGE, reason, WHAT_IS_MISSING);
  }

  lemma WhatIsMissingText()
    ensures Strip(WHAT_IS_MISSING) == WHAT_IS_MISSING
  {
    var t := WHAT_IS_MISSING;
    assert t[0] == 'P' && t[|t| - 1] == '.';
    LettersPlain(t);
  }

  lemma NoTriageText()
    ensures Strip(NO_TRIAGE) == NO_TRIAGE && FieldText(NO_TRIAGE, ["\nREASONING", "\nMISSING"])
  {
    LettersPlain(NO_TRIAGE);
    OneLineUnstopped(NO_TRIAGE, SUMMARY_STOPS);
  }

  /** A text that neither begins nor ends with white space is its own stripped form. */
  lemma LettersPlain(t: string)
    requires t != "" && !IsSpace(t[0]) && !IsSpace(t[|t| - 1])
    ensures TrimLeft(t) == t && Strip(t) == t
  {
  }

  lemma OneLineUnstopped(s: string, stops: seq<string>)
    requires (forall i :: 0 <= i < |s| ==> Fold(s[i]) != '\n')
    requires forall j :: 0 <= j < |stops| ==> stops[j] != "" && stops[j][0] == '\n'
    ensures Unstopped(s, stops)
  {
    forall i, j | 0 <= i < |s| && 0 <= j < |stops| ensures !StartsFolded(s[i..], stops[j]) {
      assert s[i..][0] == s[i] && Fold(stops[j][0]) == '\n';
    }
  }

  lemma NoColon(s: string, tag: string)
    requires forall i :: 0 <= i < |s| ==> s[i] != ':'
    ensures Unlabelled(s, tag)
  {
    forall i | 0 <= i < |s| ensures After(s[i..], tag).None? {
      if StartsFolded(s[i..], tag) {
        var t := s[i..][|tag|..];
        SkipIsSuffix(t);
        if TrimLeft(t) != "" {
          assert TrimLeft(t)[0] == s[|s| - |TrimLeft(t)|];
        }
      }
    }
  }

  lemma NoTriageLabel()
    ensures Unlabelled(NO_TRIAGE, "REASONING") && Unlabelled(NO_TRIAGE, "MISSING INFO")
  {
    hide Unlabelled;
    NoColon(NO_TRIAGE, "REASONING");
    NoColon(NO_TRIAGE, "MISSING INFO");
  }

  /**
   The reason of a failure is read back exactly if it is not blank and no line of it, but perhaps its
   first, begins with the last field's marker.
   */
  lemma ReasonReadBackExactly(reason: string)
    ensures ParseLlmResponse(SynthesizeFailure(reason)).reasoning == Some(Strip(reason))
        <==> FieldText(reason, ["\nMISSING"])
  {
    FailureWords();
    hide FieldText, ParseLlmResponse, Strip;
    NoTriageLabel();
    ReasoningReadsBack("FAILED", "HIGH", NO_TRIAGE, reason, WHAT_IS_MISSING);
  }

  /** Otherwise a reason that is not blank is cut off at its first marker. */
  lemma ReasonCutAtMarker(reason: string, e: nat)
    requires TrimLeft(reason) != "" && FirstStopAt(TrimLeft(reason), ["\nMISSING"], e)
    ensures ParseLlmResponse(SynthesizeFailure(reason)).reasoning == Some(TrimRight(TrimLeft(reason)[..e]))
  {
    var captured := TrimRight(TrimLeft(reason)[..e]);
    hide *;
    FailureWords();
    NoTriageLabel();
    var m := WHAT_IS_MISSING;
    BlockTo("FAILED", "HIGH", NO_TRIAGE, reason, m);
    PartsStop(reason, m, MissingPart(m));
    StopLists();
    ReasoningCaptured("FAILED", "HIGH", NO_TRIAGE, reason, MissingPart(m));
    CutAtStop(reason, MissingPart(m), REASONING_STOPS, e);
    WordsPlain("FAILED", "HIGH");
    WordsFound("FAILED", "HIGH", NO_TRIAGE, reason, m);
    FailureIsBlock(reason);
    ParsedFields(SynthesizeFailure(reason), "FAILED", "HIGH");
    StrippedTo(Capture(" " + reason + MissingPart(m), UpTo(REASONING_STOPS)), captured);
  }

  lemma StrippedTo(o: Option<string>, w: string)
    requires o.Some? && Strip(o.value) == w
    ensures Stripped(o) == Some(w)
  {
  }

  lemma FailureIsBlock(reason: string)
    ensures SynthesizeFailure(reason) == Block("FAILED", "HIGH", NO_TRIAGE, reason, WHAT_IS_MISSING)
  {
  }

  /** A marker on the first line is harmless: the white space before it is dropped with its newline. */
  lemma LeadingMarkerReadBack()
    ensures !Unstopped("\nMISSING x", REASONING_STOPS)
    ensures ParseLlmResponse(SynthesizeFailure("\nMISSING x")).reasoning == Some(Strip("\nMISSING x"))
  {
    var reason := "\nMISSING x";
    assert reason[0..] == reason && StartsFolded(reason[0..], REASONING_STOPS[0]);
    assert reason[1..] == "MISSING x" && TrimLeft("MISSING x") == "MISSING x";
    OneLineUnstopped("MISSING x", REASONING_STOPS);
    ReasonReadBackExactly(reason);
  }

  // ----- Any response -----

  /** The pattern matches at `i`. */
  predicate MatchAt(t: string, i: nat, tag: string, field: Field) {
    i <= |t| && After(t[i..], tag).Some? && Capture(After(t[i..], tag).value, field).Some?
  }

  /** A search gives the leftmost match, and nothing only if there is none. */
  lemma {:induction false} SearchLeftmost(t: string, tag: string, field: Field)
    ensures match Search(t, tag, field)
            case None => forall i :: 0 <= i <= |t| ==> !MatchAt(t, i, tag, field)
            case Some(x) =>
              exists i :: 0 <= i <= |t| && MatchAt(t, i, tag, field)
                          && Capture(After(t[i..], tag).value, field) == Some(x)
                          && forall j :: 0 <= j < i ==> !MatchAt(t, j, tag, field)
  {
    hide After, Capture;
    assert t[0..] == t;
    if MatchAt(t, 0, tag, field) {
    } else if t != "" {
      SearchLeftmost(t[1..], tag, field);
      forall i: nat | i <= |t| - 1 ensures MatchAt(t[1..], i, tag, field) == MatchAt(t, i + 1, tag, field) {
        assert t[1..][i..] == t[i + 1..];
      }
      assert forall i :: 0 < i <= |t| ==> MatchAt(t, i, tag, field) == MatchAt(t[1..], i - 1, tag, field);
      if Search(t, tag, field).Some? {
        var i :| 0 <= i <= |t[1..]| && MatchAt(t[1..], i, tag, field)
                 && Capture(After(t[1..][i..], tag).value, field) == Search(t, tag, field)
                 && forall j :: 0 <= j < i ==> !MatchAt(t[1..], j, tag, field);
        assert t[1..][i..] == t[i + 1..] && MatchAt(t, i + 1, tag, field);
      }
    }
  }

  predicate AllBlank(b: string) {
    forall i :: 0 <= i < |b| ==> IsSpace(b[i])
  }

  lemma {:induction false} BlanksSkipped(b: string, u: string)
    requires AllBlank(b) && (u == "" || !IsSpace(u[0]))
    ensures TrimLeft(b + u) == u
  {
    if b == "" {
      assert b + u == u;
    } else {
      assert (b + u)[1..] == b[1..] + u;
      BlanksSkipped(b[1..], u);
    }
  }

  /** The spelling is the word, letter case aside. */
  predicate Folds(m: string, word: string) {
    |m| == |word| && StartsFolded(m, word)
  }

  /** A label is read in any letter case and with any white space before its colon. */
  lemma LabelRead(m: string, b: string, u: string, tag: string)
    requires Folds(m, tag) && AllBlank(b)
    ensures After(m + b + ":" + u, tag) == Some(u)
  {
    var t := m + b + ":" + u;
    assert t[|tag|..] == b + (":" + u) && (":" + u)[1..] == u;
    BlanksSkipped(b, ":" + u);
  }

  /** The spelling begins like no earlier word. */
  lemma {:induction false} SpellingRead(m: string, w: string, rest: string, words: seq<string>, k: nat)
    requires Told(w, words, k) && Folds(m, w)
    ensures FirstWord(m + rest, words) == Some(m)
  {
    if words[0] == w {
      assert (m + rest)[..|w|] == m;
    } else {
      assert (m + rest)[k] == m[k];
      forall j | 0 <= j < |words[1..]| && words[1..][j] != w
        ensures k < |words[1..][j]| && Fold(words[1..][j][k]) != Fold(w[k])
      {
        assert words[1..][j] == words[j + 1];
      }
      SpellingRead(m, w, rest, words[1..], k);
    }
  }

  /**
   Wherever a response has its first such label, in any letter case, and any white space around the colon,
   the word after it is read, in the spelling it has.
   */
  lemma SpelledWordRead(pre: string, mark: string, b: string, b': string, m: string, rest: string, tag: string,
                        w: string, words: seq<string>, k: nat)
    requires Folds(mark, tag) && AllBlank(b) && AllBlank(b') && Folds(m, w) && Told(w, words, k)
    requires m != "" && !IsSpace(m[0])
    requires Quiet(pre, mark + b + ":" + (b' + (m + rest)), tag)
    ensures Search(pre + (mark + b + ":" + (b' + (m + rest))), tag, OneOf(words)) == Some(m)
  {
    var body := b' + (m + rest);
    assert (m + rest)[0] == m[0];
    hide After, Told, Quiet;
    SearchPasses(pre, mark + b + ":" + body, tag, OneOf(words));
    LabelRead(mark, b, body, tag);
    BlanksSkipped(b', m + rest);
    SpellingRead(m, w, rest, words, k);
    SearchHere(mark + b + ":" + body, tag, OneOf(words), body);
  }

  /** Spelled in capital or small English letters, a word is read as itself. */
  lemma SpellingUpper(m: string, w: string)
    requires Folds(m, w) && Capitals(w) && forall i :: 0 <= i < |m| ==> m[i] as int < 128
    ensures Strip(m) == m && ToUpper(m) == w
  {
    forall i | 0 <= i < |m| ensures Upper(m[i]) == w[i] && !IsSpace(m[i]) {
      assert Fold(m[i]) == Fold(w[i]);
      LetterIsNoSpace(m[i]);
    }
  }

  /** The verdict of a response is that after its first label. */
  lemma VerdictRead(pre: string, mark: string, b: string, b': string, m: string, rest: string, w: string)
    requires Folds(mark, "VERDICT") && AllBlank(b) && AllBlank(b') && w in VERDICTS && Folds(m, w)
    requires forall i :: 0 <= i < |m| ==> m[i] as int < 128
    requires Quiet(pre, mark + b + ":" + (b' + (m + rest)), "VERDICT")
    ensures ParseLlmResponse(pre + (mark + b + ":" + (b' + (m + rest)))).verdict == Some(w)
  {
    WordsTold(w, "HIGH");
    VerdictCapitals(w);
    SpellingUpper(m, w);
    LetterIsNoSpace(m[0]);
    hide Search, Strip, ToUpper, Quiet;
    SpelledWordRead(pre, mark, b, b', m, rest, "VERDICT", w, VERDICTS, 3);
    assert pre + (mark + b + ":" + (b' + (m + rest))) != "";
  }

  lemma VerdictCapitals(w: string)
    requires w in VERDICTS
    ensures Capitals(w) && "HIGH" in CONFIDENCES
  {
    assert w == "NOTIFY" || w == "NOTE" || w == "SUPPRESS" || w == "FAILED";
    assert "HIGH" == CONFIDENCES[0];
  }

  lemma ConfidenceCapitals(w: string)
    requires w in CONFIDENCES
    ensures Capitals(w) && "FAILED" in VERDICTS
  {
    assert w == "HIGH" || w == "MEDIUM" || w == "LOW";
    assert "FAILED" == VERDICTS[3];
  }

  /** So is the confidence. */
  lemma ConfidenceRead(pre: string, mark: string, b: string, b': string, m: string, rest: string, w: string)
    requires Folds(mark, "CONFIDENCE") && AllBlank(b) && AllBlank(b') && w in CONFIDENCES && Folds(m, w)
    requires forall i :: 0 <= i < |m| ==> m[i] as int < 128
    requires Quiet(pre, mark + b + ":" + (b' + (m + rest)), "CONFIDENCE")
    ensures ParseLlmResponse(pre + (mark + b + ":" + (b' + (m + rest)))).confidence == Some(w)
  {
    ConfidenceCapitals(w);
    WordsTold("FAILED", w);
    SpellingUpper(m, w);
    LetterIsNoSpace(m[0]);
    hide Search, Strip, ToUpper, Quiet;
    SpelledWordRead(pre, mark, b, b', m, rest, "CONFIDENCE", w, CONFIDENCES, 0);
    assert pre + (mark + b + ":" + (b' + (m + rest))) != "";
  }

  lemma {:induction false} FirstWordLetters(t: string, words: seq<string>)
    requires forall w :: w in words ==> Capitals(w)
    ensures match FirstWord(t, words) case Some(m) => m != "" && !IsSpace(m[0]) case None => true
  {
    if words != [] {
      assert words[0] in words;
      if StartsFolded(t, words[0]) {
        assert Fold(t[0]) == Fold(words[0][0]);
        LetterIsNoSpace(t[0]);
      } else {
        FirstWordLetters(t, words[1..]);
      }
    }
  }

  lemma WordNotBlank(t: string, tag: string, words: seq<string>)
    requires forall w :: w in words ==> Capitals(w)
    ensures var o := Search(t, tag, OneOf(words)); o.Some? ==> Strip(o.value) != ""
  {
    SearchLeftmost(t, tag, OneOf(words));
    hide Search, After;
    if Search(t, tag, OneOf(words)).Some? {
      var i :| 0 <= i <= |t| && MatchAt(t, i, tag, OneOf(words))
               && Capture(After(t[i..], tag).value, OneOf(words)) == Search(t, tag, OneOf(words));
      FirstWordLetters(TrimLeft(After(t[i..], tag).value), words);
      HeadStays(Search(t, tag, OneOf(words)).value);
    }
  }

  /**
   A response has its verdict and its confidence exactly if their
   patterns match somewhere, and the error names what is missing.
   */
  lemma ErrorsNamed(t: string)
    ensures var p := ParseLlmResponse(t);
            && (p.verdict.Some? <==> t != "" && exists i :: 0 <= i <= |t| && MatchAt(t, i, "VERDICT", OneOf(VERDICTS)))
            && (p.confidence.Some?
                <==> t != "" && exists i :: 0 <= i <= |t| && MatchAt(t, i, "CONFIDENCE", OneOf(CONFIDENCES)))
            && p.parseError ==
               (if t == "" then Some("Empty response")
                else if p.verdict.Some? then
                  if p.confidence.Some? then None else Some(" | Could not parse CONFIDENCE")
                else
                  if p.confidence.Some? then Some("Could not parse VERDICT")
                  else Some("Could not parse VERDICT | Could not parse CONFIDENCE"))
  {
    forall w | w in VERDICTS ensures Capitals(w) {
      VerdictCapitals(w);
    }
    forall w | w in CONFIDENCES ensures Capitals(w) {
      ConfidenceCapitals(w);
    }
    WordNotBlank(t, "VERDICT", VERDICTS);
    WordNotBlank(t, "CONFIDENCE", CONFIDENCES);
    SearchLeftmost(t, "VERDICT", OneOf(VERDICTS));
    SearchLeftmost(t, "CONFIDENCE", OneOf(CONFIDENCES));
    hide Search, Strip, MatchAt;
  }
}
