/**
 * Text handling around the generative backend's replies: Python's
 * `str.strip`, `str.split` on a separator, and `safe_json_parse`, which finds
 * a JSON value either in the whole reply or in one of its triple-backtick
 * fenced segments.  JSON decoding itself (`json.loads`) is a library and is
 * left abstract: every member that decodes takes the decoder as a parameter.
 */
module JsonText {
  import opened Common

  /**
   * A JSON value as the decoder produces it.  An integer literal becomes an
   * unbounded integer; any other number becomes a double, which is kept only
   * as far as the store needs it: NaN, or the text SQLite gives the double
   * when it lands in a TEXT column.
   */
  datatype Json =
    | JNull
    | JBool(b: bool)
    | JInt(i: int)
    | JFloat(x: Double)
    | JString(s: string)
    | JArray(items: seq<Json>)
    | JObject(fields: map<string, Json>)

  /** A double decoded from JSON (`NaN` and `Infinity` are accepted by the decoder). */
  datatype Double = NaN | Number(storedText: string)

  /** `json.loads`: a partial decoder, `None` where it raises. */
  type Decoder = string -> Option<Json>

  /** The separator the backend's replies use around code blocks. */
  const Fence: string := "```"

  /** The language tag that may open a fenced block. */
  const JsonTag: string := "json"

  // ---------------------------------------------------------------------------
  // Whitespace stripping (`str.strip()` with no argument)
  // ---------------------------------------------------------------------------

  /** The characters for which `str.isspace()` holds. */
  predicate IsSpace(c: char) {
    || c == ' '
    || ('\t' <= c <= '\r')
    || ('\U{1C}' <= c <= '\U{1F}')
    || c == '\U{85}' || c == '\U{A0}' || c == '\U{1680}'
    || ('\U{2000}' <= c <= '\U{200A}')
    || c == '\U{2028}' || c == '\U{2029}' || c == '\U{202F}' || c == '\U{205F}' || c == '\U{3000}'
  }

  /** `s` without its leading whitespace. */
  function TrimStart(s: string): (r: string)
    ensures |r| <= |s| && r == s[|s| - |r|..]
    ensures forall i :: 0 <= i < |s| - |r| ==> IsSpace(s[i])
    ensures r != [] ==> !IsSpace(r[0])
    decreases |s|
  {
    if s != [] && IsSpace(s[0]) then TrimStart(s[1..]) else s
  }

  /** `s` without its trailing whitespace. */
  function TrimEnd(s: string): (r: string)
    ensures |r| <= |s| && r == s[..|r|]
    ensures forall i :: |r| <= i < |s| ==> IsSpace(s[i])
    ensures r != [] ==> !IsSpace(r[|r| - 1])
    decreases |s|
  {
    if s != [] && IsSpace(s[|s| - 1]) then TrimEnd(s[..|s| - 1]) else s
  }

  /** `r` is the slice of `s` that starts at `lo`, and only whitespace lies around it. */
  predicate SliceAmidSpace(s: string, lo: int, r: string) {
    && 0 <= lo <= |s| - |r|
    && r == s[lo..lo + |r|]
    && (forall i :: 0 <= i < lo ==> IsSpace(s[i]))
    && (forall i :: lo + |r| <= i < |s| ==> IsSpace(s[i]))
  }

  /** `s.strip()`: a slice of `s`, with only whitespace cut on either side, that neither starts nor ends with whitespace. */
  function Strip(s: string): (r: string)
    ensures exists lo :: SliceAmidSpace(s, lo, r)
    ensures r != [] ==> !IsSpace(r[0]) && !IsSpace(r[|r| - 1])
  {
    var t := TrimStart(s);
    var r := TrimEnd(t);
    var lo := |s| - |t|;
    assert SliceAmidSpace(s, lo, r);
    r
  }

  // ---------------------------------------------------------------------------
  // Splitting on a separator (`str.split(sep)`)
  // ---------------------------------------------------------------------------

  /** `sep` occurs in `s` at position `i`. */
  predicate OccursAt(s: string, sep: string, i: int) {
    0 <= i <= |s| - |sep| && s[i..i + |sep|] == sep
  }

  /** `sep` occurs somewhere in `s` (Python's `sep in s`). */
  predicate Contains(s: string, sep: string) {
    exists i :: 0 <= i <= |s| - |sep| && OccursAt(s, sep, i)
  }

  /** `s.split(sep)`: the pieces between the non-overlapping occurrences of `sep`, found left to right. */
  function Split(s: string, sep: string): (parts: seq<string>)
    requires sep != []
    ensures |parts| >= 1
    decreases |s|
  {
    if |s| < |sep| then [s]
    else if s[..|sep|] == sep then [""] + Split(s[|sep|..], sep)
    else
      var rest := Split(s[1..], sep);
      [[s[0]] + rest[0]] + rest[1..]
  }

  /** `sep.join(parts)`. */
  function Join(parts: seq<string>, sep: string): string
    requires |parts| >= 1
    decreases |parts|
  {
    if |parts| == 1 then parts[0] else parts[0] + sep + Join(parts[1..], sep)
  }

  /** The split of a text that starts with the separator: an empty piece, then the split of what follows it. */
  lemma SplitAtSep(s: string, sep: string)
    requires sep != [] && |s| >= |sep| && s[..|sep|] == sep
    ensures Split(s, sep) == [""] + Split(s[|sep|..], sep)
  {
  }

  /** The split of a text that does not start with the separator: its first character joins the first piece of the rest. */
  lemma SplitNoSep(s: string, sep: string)
    requires sep != [] && |s| >= |sep| && s[..|sep|] != sep
    ensures Split(s, sep) == [[s[0]] + Split(s[1..], sep)[0]] + Split(s[1..], sep)[1..]
  {
  }

  /** Putting an empty piece in front puts the separator in front of the join. */
  lemma JoinAfterEmpty(rest: seq<string>, sep: string)
    requires |rest| >= 1
    ensures Join([""] + rest, sep) == sep + Join(rest, sep)
  {
    var parts := [""] + rest;
    assert parts[0] == "" && parts[1..] == rest;
  }

  /** Putting a character in front of the first piece puts it in front of the join. */
  lemma JoinPrependChar(c: char, rest: seq<string>, sep: string)
    requires |rest| >= 1
    ensures Join([[c] + rest[0]] + rest[1..], sep) == [c] + Join(rest, sep)
  {
    var parts := [[c] + rest[0]] + rest[1..];
    if |rest| >= 2 {
      assert parts[0] == [c] + rest[0] && parts[1..] == rest[1..];
      assert Join(parts, sep) == ([c] + rest[0]) + sep + Join(rest[1..], sep);
    }
  }

  /** Joining the pieces of a split with the same separator gives back the text. */
  lemma {:induction false} JoinSplit(s: string, sep: string)
    requires sep != []
    ensures Join(Split(s, sep), sep) == s
    decreases |s|
  {
    if |s| < |sep| {
    } else if s[..|sep|] == sep {
      SplitAtSep(s, sep);
      JoinSplit(s[|sep|..], sep);
      JoinAfterEmpty(Split(s[|sep|..], sep), sep);
      assert s == s[..|sep|] + s[|sep|..];
    } else {
      SplitNoSep(s, sep);
      JoinSplit(s[1..], sep);
      JoinPrependChar(s[0], Split(s[1..], sep), sep);
      assert s == [s[0]] + s[1..];
    }
  }

  /** An occurrence after the first position is an occurrence in the text without its first character, and back. */
  lemma ContainsTail(s: string, sep: string)
    requires sep != [] && |s| >= 1 && !OccursAt(s, sep, 0)
    ensures Contains(s, sep) <==> Contains(s[1..], sep)
  {
    if Contains(s, sep) {
      var i :| OccursAt(s, sep, i);
      assert OccursAt(s, sep, i);
      assert i != 0;
      assert s[1..][i - 1..i - 1 + |sep|] == s[i..i + |sep|];
      assert OccursAt(s[1..], sep, i - 1);
    }
    if Contains(s[1..], sep) {
      var i :| OccursAt(s[1..], sep, i);
      assert OccursAt(s[1..], sep, i);
      assert s[i + 1..i + 1 + |sep|] == s[1..][i..i + |sep|];
      assert OccursAt(s, sep, i + 1);
    }
  }

  /** A split yields a single piece exactly when the separator does not occur. */
  lemma {:induction false} SplitSingleIffAbsent(s: string, sep: string)
    requires sep != []
    ensures |Split(s, sep)| == 1 <==> !Contains(s, sep)
    decreases |s|
  {
    if |s| < |sep| {
    } else if s[..|sep|] == sep {
      assert OccursAt(s, sep, 0);
    } else {
      SplitSingleIffAbsent(s[1..], sep);
      assert s[0..|sep|] == s[..|sep|];
      ContainsTail(s, sep);
    }
  }

  // ---------------------------------------------------------------------------
  // safe_json_parse
  // ---------------------------------------------------------------------------

  /** One fenced segment as it is offered to the decoder: stripped, and without a leading `json` tag. */
  function Unfence(p: string): string {
    var p2 := Strip(p);
    if |p2| >= |JsonTag| && p2[..|JsonTag|] == JsonTag then Strip(p2[|JsonTag|..]) else p2
  }

  /** Each segment as it is offered to the decoder. */
  function UnfenceAll(parts: seq<string>): (r: seq<string>)
    ensures |r| == |parts|
    ensures forall i :: 0 <= i < |parts| ==> r[i] == Unfence(parts[i])
  {
    seq(|parts|, i requires 0 <= i < |parts| => Unfence(parts[i]))
  }

  /** The position of the first candidate, in order, that decodes; `None` when none does. */
  function FirstDecodable(cands: seq<string>, decode: Decoder): (r: Option<nat>)
    ensures r.Some? ==> r.value < |cands| && decode(cands[r.value]).Some?
    ensures r.Some? ==> forall j :: 0 <= j < r.value ==> decode(cands[j]).None?
    ensures r.None? ==> forall i :: 0 <= i < |cands| ==> decode(cands[i]).None?
    decreases |cands|
  {
    if cands == [] then None
    else if decode(cands[0]).Some? then Some(0)
    else
      var rest := FirstDecodable(cands[1..], decode);
      assert forall i :: 1 <= i < |cands| ==> cands[i] == cands[1..][i - 1];
      if rest.None? then None else Some(rest.value + 1)
  }

  /** What `safe_json_parse` offers the decoder after the whole reply: every fence-separated segment of the stripped reply, unfenced. */
  function Candidates(text: string): (cands: seq<string>)
    ensures |cands| == |Split(Strip(text), Fence)| >= 1
    ensures forall i :: 0 <= i < |cands| ==> cands[i] == Unfence(Split(Strip(text), Fence)[i])
  {
    UnfenceAll(Split(Strip(text), Fence))
  }

  /**
   * `safe_json_parse`: the decode of the whole stripped reply when that
   * succeeds; otherwise, when the reply holds a fence, the decode of the first
   * segment that decodes; otherwise `None` (the `ValueError`).
   */
  function SafeJsonParse(text: string, decode: Decoder): (r: Option<Json>)
    ensures decode(Strip(text)).Some? ==> r == decode(Strip(text))
    ensures r.None? <==> decode(Strip(text)).None?
                         && (!Contains(Strip(text), Fence)
                             || forall i :: 0 <= i < |Candidates(text)| ==> decode(Candidates(text)[i]).None?)
    ensures decode(Strip(text)).None? && r.Some? ==>
              exists k :: 0 <= k < |Candidates(text)| && r == decode(Candidates(text)[k])
                          && forall j :: 0 <= j < k ==> decode(Candidates(text)[j]).None?
  {
    var t := Strip(text);
    var whole := decode(t);
    if whole.Some? then whole
    else if Contains(t, Fence) then
      var cands := Candidates(text);
      var k := FirstDecodable(cands, decode);
      if k.None? then None else decode(cands[k.value])
    else None
  }
}
