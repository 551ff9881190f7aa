/**
 The version patterns of sdk/python/release_version.py as functions on text: each regular
 expression is a deterministic scan from the right, proved to accept exactly its language.
 */
module VersionText {
  import opened JsonValue

  predicate Digit(c: char) {
    '0' <= c <= '9'
  }

  predicate Digits(s: string) {
    forall i | 0 <= i < |s| :: Digit(s[i])
  }

  /** One or more digits. */
  predicate Number(s: string) {
    s != "" && Digits(s)
  }

  predicate NoDigitAtEnd(s: string) {
    s == "" || !Digit(s[|s| - 1])
  }

  // ---------------------------------------------------------------- taking texts apart

  function CutAt(s: string): nat {
    if s == "" || !Digit(s[|s| - 1]) then |s| else CutAt(s[..|s| - 1])
  }

  lemma {:induction false} CutAtSplits(s: string)
    ensures CutAt(s) <= |s| && Digits(s[CutAt(s)..]) && NoDigitAtEnd(s[..CutAt(s)])
  {
    if s != "" && Digit(s[|s| - 1]) {
      var k := CutAt(s);
      CutAtSplits(s[..|s| - 1]);
      assert s[..|s| - 1][..k] == s[..k];
      assert forall i | 0 <= i < |s| - 1 - k :: s[k..][i] == s[..|s| - 1][k..][i];
    }
  }

  /** A text without the digits at its end, and those digits. */
  function SplitNumber(s: string): (string, string) {
    CutAtSplits(s);
    (s[..CutAt(s)], s[CutAt(s)..])
  }

  lemma SplitNumberIff(s: string, x: string, d: string)
    ensures SplitNumber(s) == (x, d) <==> s == x + d && Digits(d) && NoDigitAtEnd(x)
  {
    CutAtSplits(s);
    var k := CutAt(s);
    assert s == s[..k] + s[k..];
    if s == x + d && Digits(d) && NoDigitAtEnd(x) && x != s[..k] {
      SplitOnce(s[..k], s[k..], x, d);
      SplitOnce(x, d, s[..k], s[k..]);
    }
  }

  lemma SplitOnce(x: string, d: string, y: string, e: string)
    requires x + d == y + e && Digits(e) && NoDigitAtEnd(x)
    ensures |x| <= |y|
    ensures |x| == |y| ==> x == y && d == e
  {
    assert x != "" ==> (x + d)[|x| - 1] == x[|x| - 1];
    if |x| == |y| {
      assert x == (x + d)[..|x|] && y == (y + e)[..|y|];
      assert d == (x + d)[|x|..] && e == (y + e)[|y|..];
    }
  }

  /** A text without a given ending. */
  function Suffixed(s: string, w: string): Option<string> {
    if |w| <= |s| && s[|s| - |w|..] == w then Some(s[..|s| - |w|]) else None
  }

  lemma SuffixedIff(s: string, w: string, x: string)
    ensures Suffixed(s, w) == Some(x) <==> s == x + w
  {
    if s == x + w {
      assert s[|x|..] == w && s[..|x|] == x;
    }
  }

  /** Texts with different last characters do not end alike. */
  lemma OtherEnding(s: string, w: string)
    requires s != "" && w != "" && s[|s| - 1] != w[|w| - 1]
    ensures Suffixed(s, w) == None
  {
    assert |w| <= |s| ==> s[|s| - |w|..][|w| - 1] == s[|s| - 1];
  }

  // ---------------------------------------------------------------- the normalised form

  datatype Kind = Alpha | Beta | Candidate

  datatype Pre = Pre(kind: Kind, number: string)

  /** A normalised version: its dotted numbers, its prerelease and its post-release. */
  datatype Version = Version(base: string, pre: Option<Pre>, post: Option<string>)

  /** Numbers separated by single dots. */
  predicate Base(s: string)
    decreases |s|
  {
    CutAtSplits(s);
    var (x, d) := SplitNumber(s);
    d != "" && (x == "" || (x[|x| - 1] == '.' && Base(x[..|x| - 1])))
  }

  predicate WellFormed(v: Version) {
    Base(v.base) && (v.pre.Some? ==> Number(v.pre.value.number)) && (v.post.Some? ==> Number(v.post.value))
  }

  function Letters(kind: Kind): string {
    match kind
    case Alpha => "a"
    case Beta => "b"
    case Candidate => "rc"
  }

  function PreText(pre: Option<Pre>): string {
    if pre.None? then "" else Letters(pre.value.kind) + pre.value.number
  }

  function PostText(post: Option<string>): string {
    if post.None? then "" else ".post" + post.value
  }

  function Text(v: Version): string {
    v.base + PreText(v.pre) + PostText(v.post)
  }

  /** The letters of a prerelease and the base before them. */
  function ScanKind(s: string): Option<(string, Kind)> {
    var a, b, rc := Suffixed(s, "a"), Suffixed(s, "b"), Suffixed(s, "rc");
    if a.Some? && Base(a.value) then Some((a.value, Alpha))
    else if b.Some? && Base(b.value) then Some((b.value, Beta))
    else if rc.Some? && Base(rc.value) then Some((rc.value, Candidate))
    else None
  }

  function ScanBody(s: string): Option<Version> {
    var (x, d) := SplitNumber(s);
    if d == "" then None
    else
      match ScanKind(x)
      case Some((base, kind)) => Some(Version(base, Some(Pre(kind, d)), None))
      case None => if Base(s) then Some(Version(s, None, None)) else None
  }

  function Scan(s: string): Option<Version> {
    var (x, d) := SplitNumber(s);
    var body := Suffixed(x, ".post");
    if d == "" || body.None? then ScanBody(s)
    else
      match ScanBody(body.value)
      case None => None
      case Some(v) => Some(v.(post := Some(d)))
  }

  lemma LettersEnd(kind: Kind)
    ensures var l := Letters(kind); l != "" && (l[|l| - 1] == 'a' || l[|l| - 1] == 'b' || l[|l| - 1] == 'c')
  {
  }

  lemma {:induction false} BaseEnds(s: string)
    requires Base(s)
    ensures s != "" && Digit(s[|s| - 1]) && Digit(s[0])
    ensures forall i | 0 <= i < |s| :: Digit(s[i]) || s[i] == '.'
    decreases |s|
  {
    var (x, d) := SplitNumber(s);
    SplitNumberIff(s, x, d);
    assert s[|s| - 1] == d[|d| - 1];
    if x != "" {
      BaseEnds(x[..|x| - 1]);
    }
  }

  lemma NotBase(x: string, d: string)
    requires Number(d) && x != "" && x[|x| - 1] != '.' && !Digit(x[|x| - 1])
    ensures !Base(x + d)
  {
    SplitNumberIff(x + d, x, d);
  }

  lemma ScanKindLetters(x: string, kind: Kind)
    ensures ScanKind(x + Letters(kind)) == if Base(x) then Some((x, kind)) else None
  {
    hide Base, Suffixed;
    var s := x + Letters(kind);
    SuffixedIff(s, Letters(kind), x);
    match kind {
      case Alpha =>
        assert s[|s| - 1] == 'a';
        OtherEnding(s, "b");
        OtherEnding(s, "rc");
      case Beta =>
        assert s[|s| - 1] == 'b';
        OtherEnding(s, "a");
        OtherEnding(s, "rc");
      case Candidate =>
        assert s[|s| - 1] == "rc"[1];
        OtherEnding(s, "a");
        OtherEnding(s, "b");
    }
  }

  lemma NoLetters(x: string)
    requires x == "" || x[|x| - 1] == '.'
    ensures ScanKind(x) == None
  {
    hide Base;
    if x != "" {
      OtherEnding(x, "a");
      OtherEnding(x, "b");
      OtherEnding(x, "rc");
    }
  }

  /** A prerelease is scanned exactly if what precedes its letters is a base. */
  lemma ScanBodyPre(x: string, kind: Kind, d: string)
    requires Number(d)
    ensures ScanBody(x + Letters(kind) + d) == if Base(x) then Some(Version(x, Some(Pre(kind, d)), None)) else None
  {
    hide Base, ScanKind, SplitNumber;
    var r := x + Letters(kind);
    LettersEnd(kind);
    assert r[|r| - 1] == Letters(kind)[|Letters(kind)| - 1];
    SplitNumberIff(r + d, r, d);
    ScanKindLetters(x, kind);
    NotBase(r, d);
  }

  lemma ScanBodyPlain(s: string)
    requires Base(s)
    ensures ScanBody(s) == Some(Version(s, None, None))
  {
    hide ScanKind, SplitNumber;
    NoLetters(SplitNumber(s).0);
  }

  /** Without a post-release, the scan is that of the body. */
  lemma ScanNoPost(s: string)
    requires var x := SplitNumber(s).0; x == "" || x[|x| - 1] != 't'
    ensures Scan(s) == ScanBody(s)
  {
    hide ScanBody, SplitNumber;
    var x := SplitNumber(s).0;
    if x != "" {
      assert ".post"[4] == 't';
      OtherEnding(x, ".post");
    }
  }

  lemma ScanPost(body: string, d: string)
    requires Number(d)
    ensures
      var v := ScanBody(body);
      Scan(body + ".post" + d) == if v.Some? then Some(v.value.(post := Some(d))) else None
  {
    hide ScanBody, SplitNumber, Suffixed;
    var r := body + ".post";
    assert r[|r| - 1] == ".post"[4];
    SplitNumberIff(r + d, r, d);
    SuffixedIff(r, ".post", body);
  }

  lemma ScanPre(x: string, kind: Kind, d: string)
    requires Number(d)
    ensures Scan(x + Letters(kind) + d) == if Base(x) then Some(Version(x, Some(Pre(kind, d)), None)) else None
  {
    hide Base, ScanBody, Scan, SplitNumber;
    var r := x + Letters(kind);
    LettersEnd(kind);
    assert r[|r| - 1] == Letters(kind)[|Letters(kind)| - 1];
    SplitNumberIff(r + d, r, d);
    ScanNoPost(r + d);
    ScanBodyPre(x, kind, d);
  }

  lemma ScanPlain(s: string)
    requires Base(s)
    ensures Scan(s) == Some(Version(s, None, None))
  {
    hide ScanBody, Scan;
    ScanBodyPlain(s);
    ScanNoPost(s);
  }

  /** The scan reads back every version. */
  lemma ScanText(v: Version)
    requires WellFormed(v)
    ensures Scan(Text(v)) == Some(v)
  {
    hide Base, ScanBody, Scan;
    var body := v.base + PreText(v.pre);
    if v.pre.Some? {
      var pre := v.pre.value;
      assert body == v.base + Letters(pre.kind) + pre.number;
      ScanBodyPre(v.base, pre.kind, pre.number);
      ScanPre(v.base, pre.kind, pre.number);
    } else {
      assert body == v.base;
      ScanBodyPlain(v.base);
      ScanPlain(v.base);
    }
    if v.post.Some? {
      assert Text(v) == body + ".post" + v.post.value;
      ScanPost(body, v.post.value);
    } else {
      assert Text(v) == body;
    }
  }

  lemma ScanKindSound(s: string)
    ensures ScanKind(s).Some? ==> var (x, kind) := ScanKind(s).value; Base(x) && s == x + Letters(kind)
  {
    hide Base, Suffixed;
    if Suffixed(s, "a").Some? { SuffixedIff(s, "a", Suffixed(s, "a").value); }
    if Suffixed(s, "b").Some? { SuffixedIff(s, "b", Suffixed(s, "b").value); }
    if Suffixed(s, "rc").Some? { SuffixedIff(s, "rc", Suffixed(s, "rc").value); }
  }

  lemma ScanBodySound(s: string)
    requires ScanBody(s).Some?
    ensures var v := ScanBody(s).value; WellFormed(v) && v.post.None? && Text(v) == s
  {
    hide Base, SplitNumber, ScanKind;
    var (x, d) := SplitNumber(s);
    SplitNumberIff(s, x, d);
    ScanKindSound(x);
    var v := ScanBody(s).value;
    if v.pre.Some? {
      assert s == v.base + Letters(v.pre.value.kind) + d;
      assert Text(v) == v.base + (Letters(v.pre.value.kind) + d) + "";
    }
  }

  /** The pattern accepts exactly the texts of versions, and no text is that of two. */
  lemma ScanIff(s: string, v: Version)
    ensures Scan(s) == Some(v) <==> WellFormed(v) && Text(v) == s
  {
    if WellFormed(v) && Text(v) == s {
      ScanText(v);
    }
    if Scan(s) == Some(v) {
      ScanSound(s);
    }
  }

  lemma ScanSound(s: string)
    requires Scan(s).Some?
    ensures WellFormed(Scan(s).value) && Text(Scan(s).value) == s
  {
    hide Base, ScanBody, SplitNumber, Suffixed;
    var (x, d) := SplitNumber(s);
    SplitNumberIff(s, x, d);
    var body := Suffixed(x, ".post");
    if d != "" && body.Some? {
      SuffixedIff(x, ".post", body.value);
      ScanBodySound(body.value);
      assert s == body.value + (".post" + d);
      assert Text(ScanBody(body.value).value) + "" == body.value;
    } else {
      ScanBodySound(s);
    }
  }

  // ---------------------------------------------------------------- prerelease words at the end

  /** What a prerelease word may be: it ends in neither a digit nor a dot. */
  predicate Word(w: string) {
    w != "" && !Digit(w[|w| - 1]) && w[|w| - 1] != '.'
  }

  /** A word, an optional dot and a number at the end of a text: what precedes them, and the number. */
  function MatchWord(t: string, w: string): Option<(string, string)> {
    var (r, d) := SplitNumber(t);
    var plain, dotted := Suffixed(r, w), Suffixed(r, w + ".");
    if d == "" then None
    else if plain.Some? then Some((plain.value, d))
    else if dotted.Some? then Some((dotted.value, d))
    else None
  }

  /** The same with a second dotted number. */
  function MatchHotfix(t: string, w: string): Option<(string, string, string)> {
    var (r, m) := SplitNumber(t);
    var head := Suffixed(r, ".");
    if m == "" || head.None? then None
    else
      match MatchWord(head.value, w)
      case None => None
      case Some((x, n)) => Some((x, n, m))
  }

  predicate EndsInWord(t: string, x: string, w: string, n: string) {
    Number(n) && (t == x + w + n || t == x + w + "." + n)
  }

  predicate EndsInHotfix(t: string, x: string, w: string, n: string, m: string) {
    Number(n) && Number(m) && (t == x + w + n + "." + m || t == x + w + "." + n + "." + m)
  }

  lemma MatchWordIff(t: string, w: string, x: string, n: string)
    requires Word(w)
    ensures MatchWord(t, w) == Some((x, n)) <==> EndsInWord(t, x, w, n)
  {
    hide SplitNumber, Suffixed;
    var (r, d) := SplitNumber(t);
    SplitNumberIff(t, r, d);
    if Number(n) && t == x + w + n {
      assert (x + w)[|x + w| - 1] == w[|w| - 1];
      SplitNumberIff(t, x + w, n);
      SuffixedIff(r, w, x);
    } else if Number(n) && t == x + w + "." + n {
      SplitNumberIff(t, x + w + ".", n);
      OtherEnding(r, w);
      assert r == x + (w + ".");
      SuffixedIff(r, w + ".", x);
    }
    if MatchWord(t, w) == Some((x, n)) {
      if Suffixed(r, w).Some? {
        SuffixedIff(r, w, x);
      } else {
        SuffixedIff(r, w + ".", x);
        assert r == x + w + ".";
      }
    }
  }

  lemma MatchHotfixIff(t: string, w: string, x: string, n: string, m: string)
    requires Word(w)
    ensures MatchHotfix(t, w) == Some((x, n, m)) <==> EndsInHotfix(t, x, w, n, m)
  {
    hide SplitNumber, Suffixed, MatchWord;
    if EndsInHotfix(t, x, w, n, m) {
      var head := if t == x + w + n + "." + m then x + w + n else x + w + "." + n;
      SplitNumberIff(t, head + ".", m);
      SuffixedIff(head + ".", ".", head);
      MatchWordIff(head, w, x, n);
    }
    if MatchHotfix(t, w) == Some((x, n, m)) {
      var (r, d) := SplitNumber(t);
      SplitNumberIff(t, r, d);
      var head := Suffixed(r, ".").value;
      SuffixedIff(r, ".", head);
      MatchWordIff(head, w, x, n);
    }
  }
}
