/** Text as the scripts take it apart: lines, white space and tokens, in ASCII. */
module Text {

  type text = string

  /** The ASCII characters that Python's split() takes for white space. */
  predicate IsSpace(c: char) {
    c == ' ' || 9 <= c as int <= 13 || 28 <= c as int <= 31
  }

  /** Blank, tab, line feed, vertical tab, form feed, carriage return, and the four separators. */
  lemma SpaceCharacters(c: char)
    ensures IsSpace(c) <==> c as int in {32, 9, 10, 11, 12, 13, 28, 29, 30, 31}
  {
  }

  predicate IsToken(s: text) {
    s != "" && forall i :: 0 <= i < |s| ==> !IsSpace(s[i])
  }

  /** "\n".join(lines) + "\n" */
  function Unlines(lines: seq<text>): text {
    if lines == [] then "" else lines[0] + "\n" + Unlines(lines[1..])
  }

  /** read_text().split(): maximal runs of characters that are not white space. */
  function Split(s: text, token: text): seq<text>
    decreases |s|
  {
    if s == "" then (if token == "" then [] else [token])
    else if IsSpace(s[0]) then (if token == "" then [] else [token]) + Split(s[1..], "")
    else Split(s[1..], token + [s[0]])
  }

  lemma {:induction false} SplitToken(token: text, s: text, rest: text)
    requires forall i :: 0 <= i < |s| ==> !IsSpace(s[i])
    ensures Split(s + rest, token) == Split(rest, token + s)
    decreases |s|
  {
    if s == "" {
      assert s + rest == rest && token + s == token;
    } else {
      assert (s + rest)[1..] == s[1..] + rest;
      SplitToken(token + [s[0]], s[1..], rest);
      assert token + [s[0]] + s[1..] == token + s;
    }
  }

  /** Splitting the written lines gives the lines back. */
  lemma {:induction false} SplitUnlines(lines: seq<text>)
    requires forall i :: 0 <= i < |lines| ==> IsToken(lines[i])
    ensures Split(Unlines(lines), "") == lines
    decreases |lines|
  {
    if lines != [] {
      var rest := "\n" + Unlines(lines[1..]);
      assert Unlines(lines) == lines[0] + rest;
      assert "" + lines[0] == lines[0];
      SplitToken("", lines[0], rest);
      assert rest[1..] == Unlines(lines[1..]);
      SplitUnlines(lines[1..]);
    }
  }

  // ----- parts of a line -----

  /** s.split(c, 1)[0] */
  function BeforeFirst(s: text, c: char): (r: text)
    ensures c !in r
    ensures r == s || (|r| < |s| && r == s[..|r|] && s[|r|] == c)
  {
    if s == "" || s[0] == c then "" else [s[0]] + BeforeFirst(s[1..], c)
  }

  /** s.split(c, 1)[1] */
  function AfterFirst(s: text, c: char): text
    requires c in s
  {
    s[|BeforeFirst(s, c)| + 1..]
  }

  function StripLeft(s: text): (r: text)
    ensures |r| <= |s|
    ensures r == "" || !IsSpace(r[0])
  {
    if s != "" && IsSpace(s[0]) then StripLeft(s[1..]) else s
  }

  function StripRight(s: text): (r: text)
    ensures |r| <= |s| && r == s[..|r|]
    ensures r == "" || !IsSpace(r[|r| - 1])
  {
    if s != "" && IsSpace(s[|s| - 1]) then StripRight(s[..|s| - 1]) else s
  }

  /** s.strip() */
  function Strip(s: text): (r: text)
    ensures r == "" || (!IsSpace(r[0]) && !IsSpace(r[|r| - 1]))
  {
    StripRight(StripLeft(s))
  }

  /** s.lower() */
  function Lower(s: text): (r: text)
    ensures |r| == |s| && forall i :: 0 <= i < |s| ==> !('A' <= r[i] <= 'Z')
  {
    seq(|s|, i requires 0 <= i < |s| => if 'A' <= s[i] <= 'Z' then s[i] - 'A' + 'a' else s[i])
  }

  /** s.upper() */
  function Upper(s: text): (r: text)
    ensures |r| == |s|
  {
    seq(|s|, i requires 0 <= i < |s| => if 'a' <= s[i] <= 'z' then s[i] - 'a' + 'A' else s[i])
  }

  /** s.replace(",", " ") */
  function CommasToSpaces(s: text): text {
    seq(|s|, i requires 0 <= i < |s| => if s[i] == ',' then ' ' else s[i])
  }

  /** Cutting at the first c undoes joining with c. */
  lemma {:induction false} FirstAfter(s: text, c: char, rest: text)
    requires c !in s
    ensures c in s + ([c] + rest)
    ensures BeforeFirst(s + ([c] + rest), c) == s && AfterFirst(s + ([c] + rest), c) == rest
    decreases |s|
  {
    var t := s + ([c] + rest);
    assert t[|s|] == c;
    if s != "" {
      assert t[1..] == s[1..] + ([c] + rest);
      FirstAfter(s[1..], c, rest);
      assert s == [s[0]] + s[1..];
    }
    assert t[|s| + 1..] == rest;
  }

  predicate AllSpace(s: text) {
    forall i :: 0 <= i < |s| ==> IsSpace(s[i])
  }

  lemma {:induction false} StripLeftParts(s: text)
    ensures |StripLeft(s)| <= |s| && s[|s| - |StripLeft(s)|..] == StripLeft(s)
    ensures AllSpace(s[..|s| - |StripLeft(s)|])
    decreases |s|
  {
    if s != "" && IsSpace(s[0]) {
      StripLeftParts(s[1..]);
      var n := |s| - |StripLeft(s)|;
      assert s[..n] == [s[0]] + s[1..][..n - 1] && s[n..] == s[1..][n - 1..];
    }
  }

  lemma {:induction false} StripRightParts(s: text)
    ensures AllSpace(s[|StripRight(s)|..])
    decreases |s|
  {
    if s != "" && IsSpace(s[|s| - 1]) {
      var front := s[..|s| - 1];
      StripRightParts(front);
      assert s[|StripRight(s)|..] == front[|StripRight(front)|..] + [s[|s| - 1]];
    }
  }

  /** Only white space is stripped, on the left and on the right. */
  lemma StripParts(s: text)
    ensures exists l: text, r: text :: s == l + Strip(s) + r && AllSpace(l) && AllSpace(r)
  {
    hide StripLeft, StripRight;
    var m := StripLeft(s);
    StripLeftParts(s);
    StripRightParts(m);
    var l, r := s[..|s| - |m|], m[|Strip(s)|..];
    assert s == l + m && m == Strip(s) + r;
    assert s == l + Strip(s) + r;
  }

  lemma {:induction false} StripLeftPad(p: text, t: text)
    requires AllSpace(p)
    ensures StripLeft(p + t) == StripLeft(t)
    decreases |p|
  {
    if p == "" {
      assert p + t == t;
    } else {
      assert (p + t)[1..] == p[1..] + t;
      StripLeftPad(p[1..], t);
    }
  }

  lemma {:induction false} StripRightPad(t: text, p: text)
    requires AllSpace(p)
    ensures StripRight(t + p) == StripRight(t)
    decreases |p|
  {
    if p == "" {
      assert t + p == t;
    } else {
      var n := |p| - 1;
      assert (t + p)[..|t + p| - 1] == t + p[..n];
      StripRightPad(t, p[..n]);
    }
  }

  /** No white space at either end. */
  predicate Trimmed(t: text) {
    t == "" || (!IsSpace(t[0]) && !IsSpace(t[|t| - 1]))
  }

  /** Stripping removes all padding. */
  lemma StripPadded(p: text, t: text, q: text)
    requires AllSpace(p) && Trimmed(t) && AllSpace(q)
    ensures Strip(p + t + q) == t
  {
    assert p + t + q == p + (t + q);
    StripLeftPad(p, t + q);
    if t == "" {
      assert t + q == q + "";
      StripLeftPad(q, "");
    } else {
      StripRightPad(t, q);
    }
  }

  // ----- separated fields -----

  predicate IsSeparator(c: char) {
    c == ' ' || c == '\t' || c == ','
  }

  /** The fields ts, each followed by its separators. */
  function Joined(ts: seq<text>, seps: seq<text>): text
    requires |ts| == |seps|
  {
    if ts == [] then "" else ts[0] + seps[0] + Joined(ts[1..], seps[1..])
  }

  /** Fields hold no white space and no comma; blanks, tabs and commas stand between them, and
      may follow the last. */
  predicate Separated(ts: seq<text>, seps: seq<text>) {
    && |ts| == |seps|
    && (forall i :: 0 <= i < |ts| ==> IsToken(ts[i]) && ',' !in ts[i])
    && (forall i, j :: 0 <= i < |seps| && 0 <= j < |seps[i]| ==> IsSeparator(seps[i][j]))
    && (forall i :: 0 <= i < |seps| - 1 ==> seps[i] != "")
  }

  lemma CommasAppend(a: text, b: text)
    ensures CommasToSpaces(a + b) == CommasToSpaces(a) + CommasToSpaces(b)
  {
  }

  lemma {:induction false} SplitSpaces(sp: text, rest: text)
    requires AllSpace(sp)
    ensures Split(sp + rest, "") == Split(rest, "")
    decreases |sp|
  {
    if sp == "" {
      assert sp + rest == rest;
    } else {
      assert (sp + rest)[1..] == sp[1..] + rest;
      SplitSpaces(sp[1..], rest);
    }
  }

  /** Splitting after commas become blanks gives the fields back. */
  lemma {:induction false} SplitJoined(ts: seq<text>, seps: seq<text>)
    requires Separated(ts, seps)
    ensures Split(CommasToSpaces(Joined(ts, seps)), "") == ts
    decreases |ts|
  {
    if ts != [] {
      var t, sep, rest := ts[0], CommasToSpaces(seps[0]), Joined(ts[1..], seps[1..]);
      assert forall j :: 0 <= j < |seps[0]| ==> IsSeparator(seps[0][j]);
      SplitJoined(ts[1..], seps[1..]);
      CommasAppend(t + seps[0], rest);
      CommasAppend(t, seps[0]);
      assert CommasToSpaces(t) == t;
      var tail := sep + CommasToSpaces(rest);
      assert CommasToSpaces(Joined(ts, seps)) == t + tail;
      SplitToken("", t, tail);
      assert "" + t == t;
      AfterField(t, sep, CommasToSpaces(rest), ts);
    }
  }

  lemma AfterField(t: text, sep: text, rest: text, ts: seq<text>)
    requires ts != [] && t == ts[0] != "" && AllSpace(sep) && Split(rest, "") == ts[1..]
    requires sep == "" ==> rest == ""
    ensures Split(sep + rest, t) == ts
  {
    if sep == "" {
      assert sep + rest == "" && ts == [t] + ts[1..];
    } else {
      assert (sep + rest)[1..] == sep[1..] + rest;
      SplitSpaces(sep[1..], rest);
      assert ts == [t] + ts[1..];
    }
  }

  /** Lower-casing leaves text without capitals alone and moves capitals by 32. */
  lemma LowerLetters(s: text, i: nat)
    requires i < |s|
    ensures 'A' <= s[i] <= 'Z' ==> Lower(s)[i] as int == s[i] as int + 32
    ensures !('A' <= s[i] <= 'Z') ==> Lower(s)[i] == s[i]
  {
  }
}
