/**
 Release versions and tags (sdk/python/release_version.py): normalising the spellings of a
 version, printing the release tag of a version, and resolving a Python runtime version.
 */
module ReleaseVersion {
  import opened JsonValue
  import opened VersionText

  // ---------------------------------------------------------------- normalising

  /** The characters that stripping removes. */
  predicate Space(c: char) {
    '\U{9}' <= c <= '\U{D}' || '\U{1C}' <= c <= ' ' || c == '\U{85}' || c == '\U{A0}' || c == '\U{1680}'
    || '\U{2000}' <= c <= '\U{200A}' || c == '\U{2028}' || c == '\U{2029}' || c == '\U{202F}' || c == '\U{205F}'
    || c == '\U{3000}'
  }

  /** Which characters these are, by their numbers. */
  lemma SpaceIff(c: char)
    ensures Space(c) <==> c as int in [
      9, 10, 11, 12, 13, 28, 29, 30, 31, 32, 133, 160, 5760,
      8192, 8193, 8194, 8195, 8196, 8197, 8198, 8199, 8200, 8201, 8202, 8232, 8233, 8239, 8287, 12288]
  {
  }

  function Strip(s: string): string {
    if s == "" then ""
    else if Space(s[0]) then Strip(s[1..])
    else if Space(s[|s| - 1]) then Strip(s[..|s| - 1])
    else s
  }

  function Prefixed(s: string, w: string): Option<string> {
    if |w| <= |s| && s[..|w|] == w then Some(s[|w|..]) else None
  }

  function Unprefixed(s: string): string {
    var rust, v := Prefixed(s, "rust-v"), Prefixed(s, "v");
    if rust.Some? then rust.value else if v.Some? then v.value else s
  }

  predicate Blank(s: string) {
    forall i | 0 <= i < |s| :: Space(s[i])
  }

  /** Stripping takes the spaces off both ends and nothing else. */
  lemma {:induction false} StripIff(s: string, t: string)
    ensures Strip(s) == t <==> Stripped(s, t)
  {
    hide Space;
    var u := StripSound(s);
    if Stripped(s, t) {
      StrippedOnce(s, t, u);
    }
  }

  /** The text between the spaces at both ends. */
  ghost predicate Stripped(s: string, t: string) {
    (t != "" ==> !Space(t[0]) && !Space(t[|t| - 1])) && exists a, b :: Around(s, a, t, b)
  }

  predicate Around(s: string, a: string, t: string, b: string) {
    s == a + t + b && Blank(a) && Blank(b)
  }

  lemma {:induction false} StripSound(s: string) returns (t: string)
    ensures t == Strip(s) && Stripped(s, t)
    decreases |s|
  {
    hide Space, Around;
    t := Strip(s);
    if s == "" || (!Space(s[0]) && !Space(s[|s| - 1])) {
      Bare(s);
    } else if Space(s[0]) {
      var u := StripSound(s[1..]);
      var a, b :| Around(s[1..], a, t, b);
      WiderLeft(s, a, t, b);
    } else {
      var u := StripSound(s[..|s| - 1]);
      var a, b :| Around(s[..|s| - 1], a, t, b);
      WiderRight(s, a, t, b);
    }
  }

  lemma Bare(s: string)
    ensures Around(s, "", s, "")
  {
  }

  lemma WiderLeft(s: string, a: string, t: string, b: string)
    requires s != "" && Space(s[0]) && Around(s[1..], a, t, b)
    ensures Around(s, [s[0]] + a, t, b)
  {
    hide Space;
    assert s == [s[0]] + s[1..];
  }

  lemma WiderRight(s: string, a: string, t: string, b: string)
    requires s != "" && Space(s[|s| - 1]) && Around(s[..|s| - 1], a, t, b)
    ensures Around(s, a, t, b + [s[|s| - 1]])
  {
    hide Space;
    assert s == s[..|s| - 1] + [s[|s| - 1]];
  }

  lemma StrippedOnce(s: string, t: string, u: string)
    requires Stripped(s, t) && Stripped(s, u)
    ensures t == u
  {
    hide Space;
    var a, b :| Around(s, a, t, b);
    var c, d :| Around(s, c, u, d);
    if t != "" {
      assert s[|a|] == t[0] && s[|a| + |t| - 1] == t[|t| - 1];
      SpacesEnd(s, c, u, d, |a|);
      SpacesEnd(s, c, u, d, |a| + |t| - 1);
    }
    if u != "" {
      assert s[|c|] == u[0] && s[|c| + |u| - 1] == u[|u| - 1];
      SpacesEnd(s, a, t, b, |c|);
      SpacesEnd(s, a, t, b, |c| + |u| - 1);
    }
    assert t == s[|a|..|a| + |t|] && u == s[|c|..|c| + |u|];
  }

  /** A character that is no space is not in the margins. */
  lemma SpacesEnd(s: string, a: string, t: string, b: string, i: nat)
    requires Around(s, a, t, b) && i < |s| && !Space(s[i])
    ensures |a| <= i < |a| + |t|
  {
    hide Space;
    assert forall j | 0 <= j < |a| :: s[j] == a[j];
    assert forall j | |a| + |t| <= j < |s| :: s[j] == b[j - |a| - |t|];
  }

  /** One prefix is taken off, the longer one first. */
  lemma UnprefixedIff(s: string)
    ensures forall r :: s == "rust-v" + r ==> Unprefixed(s) == r
    ensures forall r :: s == "v" + r ==> Unprefixed(s) == r
    ensures !("rust-v" <= s) && !("v" <= s) ==> Unprefixed(s) == s
  {
    assert "rust-v"[0] == 'r' && "v"[0] == 'v';
  }

  function SubHotfix(t: string): string {
    match MatchHotfix(t, "-alpha")
    case None => t
    case Some((x, n, m)) => x + "a" + n + ".post" + m
  }

  function Sub(t: string, w: string, kind: Kind): string {
    match MatchWord(t, w)
    case None => t
    case Some((x, n)) => x + Letters(kind) + n
  }

  function Rewritten(t: string): string {
    Sub(Sub(Sub(SubHotfix(t), "-alpha", Alpha), "-beta", Beta), "-rc", Candidate)
  }

  function Normalise(s: string): Outcome<string> {
    var t := Rewritten(Unprefixed(Strip(s)));
    if Scan(t).Some? then Ok(t) else Raise
  }

  // ---------------------------------------------------------------- printing

  function Name(kind: Kind): string {
    match kind
    case Alpha => "-alpha"
    case Beta => "-beta"
    case Candidate => "-rc"
  }

  /** The release spelling; a post-release of anything but an alpha has no spelling of its own. */
  function Release(v: Version): string {
    match v
    case Version(base, Some(Pre(Alpha, n)), Some(m)) => base + "-alpha" + "." + n + "." + m
    case Version(base, Some(Pre(kind, n)), None) => base + Name(kind) + "." + n
    case _ => Text(v)
  }

  function Tag(s: string): Outcome<string> {
    match Normalise(s)
    case Raise => Raise
    case Ok(n) => if Scan(n).Some? then Ok("rust-v" + Release(Scan(n).value)) else Raise
  }

  // ---------------------------------------------------------------- which spellings are accepted

  /** The normalised text of a version, part by part. */
  predicate Writes(t: string, v: Version) {
    match v
    case Version(base, None, None) => t == base
    case Version(base, None, Some(m)) => t == base + ".post" + m
    case Version(base, Some(Pre(Alpha, n)), None) => t == base + "a" + n
    case Version(base, Some(Pre(Alpha, n)), Some(m)) => t == base + "a" + n + ".post" + m
    case Version(base, Some(Pre(Beta, n)), None) => t == base + "b" + n
    case Version(base, Some(Pre(Beta, n)), Some(m)) => t == base + "b" + n + ".post" + m
    case Version(base, Some(Pre(Candidate, n)), None) => t == base + "rc" + n
    case Version(base, Some(Pre(Candidate, n)), Some(m)) => t == base + "rc" + n + ".post" + m
  }

  lemma WritesIff(t: string, v: Version)
    ensures Writes(t, v) <==> t == Text(v)
  {
    var Version(base, pre, post) := v;
    if pre.Some? {
      var l, n := Letters(pre.value.kind), pre.value.number;
      assert base + (l + n) == base + l + n;
      assert base + (l + n) + "" == base + l + n;
      if post.Some? {
        assert base + (l + n) + (".post" + post.value) == base + l + n + ".post" + post.value;
      }
    } else {
      assert base + "" + "" == base;
      if post.Some? {
        assert base + "" + (".post" + post.value) == base + ".post" + post.value;
      }
    }
  }

  /** What the text of a version looks like before it is normalised. */
  predicate Spells(t: string, v: Version) {
    Writes(t, v)
    || match v
       case Version(base, Some(Pre(Alpha, n)), None) => EndsInWord(t, base, "-alpha", n)
       case Version(base, Some(Pre(Beta, n)), None) =>
         EndsInWord(t, base, "-beta", n) || EndsInWord(t, base, "-bet-alpha", n)
       case Version(base, Some(Pre(Candidate, n)), None) => EndsInWord(t, base, "-rc", n)
       case Version(base, Some(Pre(Alpha, n)), Some(m)) => EndsInHotfix(t, base, "-alpha", n, m)
       case _ => false
  }

  predicate NoDash(t: string) {
    forall i | 0 <= i < |t| :: t[i] != '-'
  }

  lemma Words()
    ensures Word("-alpha") && Word("-beta") && Word("-rc") && Word("-bet-alpha")
  {
    assert "-alpha"[5] == 'a' && "-beta"[4] == 'a' && "-rc"[2] == 'c' && "-bet-alpha"[9] == 'a';
  }

  /** A version's text has no dash. */
  lemma TextHasNoDash(v: Version)
    requires WellFormed(v)
    ensures NoDash(Text(v))
  {
    hide Base;
    BaseEnds(v.base);
    assert NoDash(v.base);
    assert NoDash(PreText(v.pre)) by {
      if v.pre.Some? {
        var l, n := Letters(v.pre.value.kind), v.pre.value.number;
        assert NoDash(l) && NoDash(n);
      }
    }
    assert NoDash(PostText(v.post)) by {
      if v.post.Some? {
        assert NoDash(".post") && NoDash(v.post.value);
      }
    }
  }

  /** Without a dash there is nothing to rewrite. */
  lemma NothingToRewrite(t: string)
    requires NoDash(t)
    ensures Rewritten(t) == t
  {
    hide MatchWord, MatchHotfix;
    Words();
    WordHasDash(t, "-alpha");
    WordHasDash(t, "-beta");
    WordHasDash(t, "-rc");
    HotfixHasDash(t);
  }

  lemma WordHasDash(t: string, w: string)
    requires Word(w) && w[0] == '-'
    ensures MatchWord(t, w).Some? ==> !NoDash(t)
  {
    hide MatchWord;
    if MatchWord(t, w).Some? {
      var (x, n) := MatchWord(t, w).value;
      MatchWordIff(t, w, x, n);
      assert t[|x|] == '-';
    }
  }

  lemma HotfixHasDash(t: string)
    ensures MatchHotfix(t, "-alpha").Some? ==> !NoDash(t)
  {
    hide MatchHotfix;
    Words();
    if MatchHotfix(t, "-alpha").Some? {
      var (x, n, m) := MatchHotfix(t, "-alpha").value;
      MatchHotfixIff(t, "-alpha", x, n, m);
      assert t[|x|] == '-';
    }
  }

  // ---------------------------------------------------------------- what each rewriting leaves for the next

  /** A number after a character that is neither a dot nor the end of the word is not after the word. */
  lemma NoWordAfter(r: string, n: string, w: string)
    requires Number(n) && Word(r) && Word(w) && r[|r| - 1] != w[|w| - 1]
    ensures MatchWord(r + n, w) == None
  {
    hide SplitNumber, Suffixed;
    SplitNumberIff(r + n, r, n);
    OtherEnding(r, w);
    OtherEnding(r, w + ".");
  }

  lemma NoHotfixAfter(t: string, x: string, w: string, n: string)
    requires Word(w) && EndsInWord(t, x, w, n)
    ensures MatchHotfix(t, "-alpha") == None
  {
    hide SplitNumber, Suffixed;
    assert (x + w)[|x + w| - 1] == w[|w| - 1];
    if t == x + w + n {
      SplitNumberIff(t, x + w, n);
      OtherEnding(x + w, ".");
    } else {
      SplitNumberIff(t, x + w + ".", n);
      SuffixedIff(x + w + ".", ".", x + w);
      SplitNumberIff(x + w, x + w, "");
    }
  }

  lemma RewrittenHotfix(t: string, x: string, n: string, m: string)
    requires EndsInHotfix(t, x, "-alpha", n, m)
    ensures Rewritten(t) == x + "a" + n + ".post" + m
  {
    hide MatchWord, MatchHotfix;
    Words();
    MatchHotfixIff(t, "-alpha", x, n, m);
    var r := x + "a" + n + ".post";
    assert r[|r| - 1] == ".post"[4];
    assert "-alpha"[5] == 'a' && "-beta"[4] == 'a' && "-rc"[2] == 'c';
    NoWordAfter(r, m, "-alpha");
    NoWordAfter(r, m, "-beta");
    NoWordAfter(r, m, "-rc");
  }

  /** The letters of a prerelease, once written, are not taken for a later word. */
  lemma LettersStay(x: string, kind: Kind, n: string)
    requires Number(n)
    ensures var t := x + Letters(kind) + n;
      (kind != Candidate ==> MatchWord(t, "-rc") == None)
      && (kind == Beta ==> MatchWord(t, "-alpha") == None && MatchWord(t, "-beta") == None)
  {
    hide MatchWord;
    Words();
    assert "-alpha"[5] == 'a' && "-beta"[4] == 'a' && "-rc"[2] == 'c';
    LettersEnd(kind);
    var r := x + Letters(kind);
    assert r[|r| - 1] == Letters(kind)[|Letters(kind)| - 1];
    if kind != Candidate {
      NoWordAfter(r, n, "-rc");
    }
    if kind == Beta {
      NoWordAfter(r, n, "-alpha");
      NoWordAfter(r, n, "-beta");
    }
  }

  /** An alpha stays one unless the word before it makes it a beta. */
  lemma RewrittenAlpha(t: string, x: string, n: string)
    requires EndsInWord(t, x, "-alpha", n)
    ensures Rewritten(t) == match Suffixed(x, "-bet") case None => x + "a" + n case Some(y) => y + "b" + n
  {
    hide MatchWord, MatchHotfix, Suffixed;
    Words();
    NoHotfixAfter(t, x, "-alpha", n);
    MatchWordIff(t, "-alpha", x, n);
    var u := x + "a" + n;
    assert u == Sub(SubHotfix(t), "-alpha", Alpha);
    AlphaAsBeta(x, n);
    LettersStay(x, Alpha, n);
    if Suffixed(x, "-bet").Some? {
      LettersStay(Suffixed(x, "-bet").value, Beta, n);
    }
  }

  lemma AlphaAsBeta(x: string, n: string)
    requires Number(n)
    ensures MatchWord(x + "a" + n, "-beta")
         == match Suffixed(x, "-bet") case None => None case Some(y) => Some((y, n))
  {
    hide SplitNumber, Suffixed;
    var r := x + "a";
    SplitNumberIff(r + n, r, n);
    OtherEnding(r, "-beta" + ".");
    if Suffixed(x, "-bet").Some? {
      var y := Suffixed(x, "-bet").value;
      SuffixedIff(x, "-bet", y);
      assert r == y + "-beta";
      SuffixedIff(r, "-beta", y);
    }
    if Suffixed(r, "-beta").Some? {
      var y := Suffixed(r, "-beta").value;
      SuffixedIff(r, "-beta", y);
      assert x == r[..|r| - 1] == y + "-bet";
      SuffixedIff(x, "-bet", y);
    }
  }

  lemma RewrittenBeta(t: string, x: string, n: string)
    requires EndsInWord(t, x, "-beta", n)
    ensures Rewritten(t) == x + "b" + n
  {
    hide MatchWord, MatchHotfix;
    Words();
    NoHotfixAfter(t, x, "-beta", n);
    NotAlpha(t, x, "-beta", n);
    MatchWordIff(t, "-beta", x, n);
    LettersStay(x, Beta, n);
  }

  lemma RewrittenCandidate(t: string, x: string, n: string)
    requires EndsInWord(t, x, "-rc", n)
    ensures Rewritten(t) == x + "rc" + n
  {
    hide MatchWord, MatchHotfix;
    Words();
    NoHotfixAfter(t, x, "-rc", n);
    NotAlpha(t, x, "-rc", n);
    NotBeta(t, x, n);
    MatchWordIff(t, "-rc", x, n);
  }

  lemma NotAlpha(t: string, x: string, w: string, n: string)
    requires (w == "-beta" || w == "-rc") && EndsInWord(t, x, w, n)
    ensures MatchWord(t, "-alpha") == None
  {
    hide MatchWord;
    Words();
    MatchWordIff(t, w, x, n);
    if MatchWord(t, "-alpha").Some? {
      var (y, m) := MatchWord(t, "-alpha").value;
      MatchWordIff(t, "-alpha", y, m);
      WordsDiffer(t, x, w, n, y, "-alpha", m);
    }
  }

  lemma NotBeta(t: string, x: string, n: string)
    requires EndsInWord(t, x, "-rc", n)
    ensures MatchWord(t, "-beta") == None
  {
    hide MatchWord;
    Words();
    if MatchWord(t, "-beta").Some? {
      var (y, m) := MatchWord(t, "-beta").value;
      MatchWordIff(t, "-beta", y, m);
      WordsDiffer(t, x, "-rc", n, y, "-beta", m);
    }
  }

  /** A text does not end in two words that differ in one of their last two characters. */
  lemma WordsDiffer(t: string, x: string, w: string, n: string, y: string, v: string, m: string)
    requires Word(w) && Word(v) && |w| >= 2 && |v| >= 2 && EndsInWord(t, x, w, n) && EndsInWord(t, y, v, m)
    ensures w[|w| - 1] == v[|v| - 1] && w[|w| - 2] == v[|v| - 2]
  {
    assert (x + w)[|x + w| - 1] == w[|w| - 1] && (x + w)[|x + w| - 2] == w[|w| - 2];
    assert (y + v)[|y + v| - 1] == v[|v| - 1] && (y + v)[|y + v| - 2] == v[|v| - 2];
    hide SplitNumber;
    if t == x + w + n {
      SplitNumberIff(t, x + w, n);
    } else {
      SplitNumberIff(t, x + w + ".", n);
    }
    if t == y + v + m {
      SplitNumberIff(t, y + v, m);
      assert (y + v)[|y + v| - 1] != '.';
    } else {
      SplitNumberIff(t, y + v + ".", m);
    }
    var r := SplitNumber(t).0;
    assert r[|r| - 1] == '.' ==> r[..|r| - 1] == x + w == y + v;
  }

  // ---------------------------------------------------------------- the accepted spellings

  lemma PreIsUnique(v: Version, x: string, kind: Kind, n: string)
    requires WellFormed(v) && Number(n) && Text(v) == x + Letters(kind) + n
    ensures v == Version(x, Some(Pre(kind, n)), None)
  {
    hide Scan, Base;
    ScanText(v);
    ScanPre(x, kind, n);
  }

  lemma HotfixIsUnique(v: Version, x: string, n: string, m: string)
    requires WellFormed(v) && Number(n) && Number(m) && Text(v) == x + "a" + n + ".post" + m
    ensures v == Version(x, Some(Pre(Alpha, n)), Some(m))
  {
    hide Scan, Base, ScanBody;
    ScanText(v);
    ScanBodyPre(x, Alpha, n);
    ScanPost(x + "a" + n, m);
  }

  lemma SpelledIsRewritten(t: string, v: Version)
    requires WellFormed(v) && Spells(t, v)
    ensures Rewritten(t) == Text(v)
  {
    WritesIff(t, v);
    hide Rewritten, Base;
    if t == Text(v) {
      TextHasNoDash(v);
      NothingToRewrite(t);
    } else if v.post.Some? {
      RewrittenHotfix(t, v.base, v.pre.value.number, v.post.value);
      assert Text(v) == v.base + "a" + v.pre.value.number + ".post" + v.post.value;
    } else {
      var n := v.pre.value.number;
      assert Text(v) == v.base + Letters(v.pre.value.kind) + n;
      match v.pre.value.kind {
        case Alpha =>
          AlphaBase(v.base);
          RewrittenAlpha(t, v.base, n);
        case Beta =>
          if EndsInWord(t, v.base, "-beta", n) {
            RewrittenBeta(t, v.base, n);
          } else {
            BetAlpha(t, v.base, n);
          }
        case Candidate =>
          RewrittenCandidate(t, v.base, n);
      }
    }
  }

  lemma AlphaBase(x: string)
    requires Base(x)
    ensures Suffixed(x, "-bet") == None
  {
    hide Base;
    BaseEnds(x);
    assert "-bet"[3] == 't';
    OtherEnding(x, "-bet");
  }

  lemma BetAlpha(t: string, x: string, n: string)
    requires EndsInWord(t, x, "-bet-alpha", n)
    ensures EndsInWord(t, x + "-bet", "-alpha", n) && Rewritten(t) == x + "b" + n
  {
    hide Rewritten, Suffixed;
    assert x + "-bet-alpha" == x + "-bet" + "-alpha";
    RewrittenAlpha(t, x + "-bet", n);
    SuffixedIff(x + "-bet", "-bet", x);
  }

  lemma RewrittenIsSpelled(t: string, v: Version)
    requires WellFormed(v) && Rewritten(t) == Text(v)
    ensures Spells(t, v)
  {
    hide MatchWord, MatchHotfix, Base, Suffixed, Text;
    WritesIff(t, v);
    Words();
    var hotfix, alpha := MatchHotfix(t, "-alpha"), MatchWord(t, "-alpha");
    var beta, candidate := MatchWord(t, "-beta"), MatchWord(t, "-rc");
    if hotfix.Some? {
      var (x, n, m) := hotfix.value;
      MatchHotfixIff(t, "-alpha", x, n, m);
      RewrittenHotfix(t, x, n, m);
      HotfixIsUnique(v, x, n, m);
    } else if alpha.Some? {
      var (x, n) := alpha.value;
      MatchWordIff(t, "-alpha", x, n);
      RewrittenAlpha(t, x, n);
      if Suffixed(x, "-bet").Some? {
        var y := Suffixed(x, "-bet").value;
        SuffixedIff(x, "-bet", y);
        PreIsUnique(v, y, Beta, n);
        assert x + "-alpha" == y + "-bet-alpha";
      } else {
        PreIsUnique(v, x, Alpha, n);
      }
    } else if beta.Some? {
      var (x, n) := beta.value;
      MatchWordIff(t, "-beta", x, n);
      RewrittenBeta(t, x, n);
      PreIsUnique(v, x, Beta, n);
    } else if candidate.Some? {
      var (x, n) := candidate.value;
      MatchWordIff(t, "-rc", x, n);
      RewrittenCandidate(t, x, n);
      PreIsUnique(v, x, Candidate, n);
    }
  }

  /** Exactly what is accepted as a version, and as which. */
  lemma NormaliseIff(s: string, v: Version)
    requires WellFormed(v)
    ensures Normalise(s) == Ok(Text(v)) <==> Spells(Unprefixed(Strip(s)), v)
  {
    hide Rewritten, Scan, Base, Strip, Unprefixed, Text;
    var t := Unprefixed(Strip(s));
    if Rewritten(t) == Text(v) {
      ScanText(v);
      RewrittenIsSpelled(t, v);
    }
    if Spells(t, v) {
      ScanText(v);
      SpelledIsRewritten(t, v);
    }
  }

  /** What is accepted is the text of one version. */
  lemma NormalisedIsText(s: string)
    requires Normalise(s).Ok?
    ensures var n := Normalise(s).value;
      Scan(n).Some? && WellFormed(Scan(n).value) && Text(Scan(n).value) == n
  {
    hide Rewritten, Scan, Base, Strip, Unprefixed;
    ScanSound(Normalise(s).value);
  }

  // ---------------------------------------------------------------- normalising and tagging

  lemma StripNothing(s: string)
    requires s != "" && !Space(s[0]) && !Space(s[|s| - 1])
    ensures Strip(s) == s
  {
  }

  /** A number is at the end of every text and spelling of a version. */
  lemma TextEnds(v: Version)
    requires WellFormed(v)
    ensures var t := Text(v); t != "" && Digit(t[0]) && Digit(t[|t| - 1])
    ensures var r := Release(v); r != "" && Digit(r[|r| - 1])
  {
    hide Base;
    BaseEnds(v.base);
  }

  lemma DigitIsNoSpace(c: char)
    requires Digit(c)
    ensures !Space(c)
  {
  }

  /** Normalised versions are left alone. */
  lemma NormaliseText(v: Version)
    requires WellFormed(v)
    ensures Normalise(Text(v)) == Ok(Text(v))
  {
    hide Strip, Normalise, Text, Base, Release;
    var t := Text(v);
    TextEnds(v);
    DigitIsNoSpace(t[0]);
    DigitIsNoSpace(t[|t| - 1]);
    StripNothing(t);
    WritesIff(t, v);
    NoPrefix(t);
    NormaliseIff(t, v);
  }

  lemma NormaliseIdempotent(s: string)
    requires Normalise(s).Ok?
    ensures Normalise(Normalise(s).value) == Normalise(s)
  {
    hide Normalise, Scan, Base;
    NormalisedIsText(s);
    NormaliseText(Scan(Normalise(s).value).value);
  }

  lemma ReleaseSpells(v: Version)
    requires WellFormed(v)
    ensures Spells(Release(v), v)
  {
    hide Base;
  }

  /** A release tag normalises to the version it was made for. */
  lemma NormaliseTagged(v: Version)
    requires WellFormed(v)
    ensures Normalise("rust-v" + Release(v)) == Ok(Text(v))
  {
    hide Strip, Normalise, Text, Base, Release, Spells;
    var r := Release(v);
    var t := "rust-v" + r;
    TextEnds(v);
    assert t[0] == 'r' && t[|t| - 1] == r[|r| - 1];
    DigitIsNoSpace(r[|r| - 1]);
    StripNothing(t);
    assert t[..6] == "rust-v" && t[6..] == r;
    assert Unprefixed(t) == r;
    ReleaseSpells(v);
    NormaliseIff(t, v);
  }

  lemma TagOf(s: string)
    ensures Tag(s).Ok? <==> Normalise(s).Ok?
    ensures Tag(s).Ok? ==>
      var v := Scan(Normalise(s).value);
      v.Some? && WellFormed(v.value) && Text(v.value) == Normalise(s).value && Tag(s) == Ok("rust-v" + Release(v.value))
  {
    hide Normalise, Scan, Base, Text, Release;
    if Normalise(s).Ok? {
      NormalisedIsText(s);
    }
  }

  /** The release tag of a version, part by part. */
  predicate TagReads(tag: string, v: Version) {
    match v
    case Version(base, None, None) => tag == "rust-v" + base
    case Version(base, Some(Pre(Alpha, n)), None) => tag == "rust-v" + base + "-alpha." + n
    case Version(base, Some(Pre(Beta, n)), None) => tag == "rust-v" + base + "-beta." + n
    case Version(base, Some(Pre(Candidate, n)), None) => tag == "rust-v" + base + "-rc." + n
    case Version(base, Some(Pre(Alpha, n)), Some(m)) => tag == "rust-v" + base + "-alpha." + n + "." + m
    case Version(base, Some(Pre(Beta, n)), Some(m)) => tag == "rust-v" + base + "b" + n + ".post" + m
    case Version(base, Some(Pre(Candidate, n)), Some(m)) => tag == "rust-v" + base + "rc" + n + ".post" + m
    case Version(base, None, Some(m)) => tag == "rust-v" + base + ".post" + m
  }

  lemma TagReadsIff(tag: string, v: Version)
    ensures TagReads(tag, v) <==> tag == "rust-v" + Release(v)
  {
    var Version(base, pre, post) := v;
    WritesIff(Text(v), v);
    hide Text;
    if pre.Some? {
      var kind, n := pre.value.kind, pre.value.number;
      if post.None? {
        assert "-alpha" + "." == "-alpha." && "-beta" + "." == "-beta." && "-rc" + "." == "-rc.";
        var w := Name(kind) + ".";
        assert "rust-v" + (base + Name(kind) + "." + n) == "rust-v" + base + w + n;
      } else if kind == Alpha {
        assert "-alpha" + "." == "-alpha.";
        var m, w := post.value, "-alpha" + ".";
        assert "rust-v" + (base + "-alpha" + "." + n + "." + m) == "rust-v" + base + w + n + "." + m;
      } else {
        var l, m := Letters(kind), post.value;
        assert "rust-v" + (base + l + n + ".post" + m) == "rust-v" + base + l + n + ".post" + m;
      }
    } else if post.Some? {
      assert "rust-v" + (base + ".post" + post.value) == "rust-v" + base + ".post" + post.value;
    }
  }

  /** Exactly what is given a tag, and which: the text spells a version and the tag is the release of that one. */
  lemma TagIff(s: string, tag: string)
    ensures Tag(s) == Ok(tag)
       <==> exists v :: WellFormed(v) && Spells(Unprefixed(Strip(s)), v) && TagReads(tag, v)
  {
    hide Normalise, Scan, Base, Text, Release, Spells, TagReads, Strip, Unprefixed;
    TagOf(s);
    if Tag(s) == Ok(tag) {
      var v := Scan(Normalise(s).value).value;
      NormaliseIff(s, v);
      TagReadsIff(tag, v);
    }
    if v :| WellFormed(v) && Spells(Unprefixed(Strip(s)), v) && TagReads(tag, v) {
      NormaliseIff(s, v);
      TagReadsIff(tag, v);
      ScanText(v);
    }
  }

  /** Texts joined by dots. */
  function Dotted(parts: seq<string>): string {
    if parts == [] then "" else if |parts| == 1 then parts[0]
    else Dotted(parts[..|parts| - 1]) + "." + parts[|parts| - 1]
  }

  predicate Numbers(parts: seq<string>) {
    parts != [] && forall i | 0 <= i < |parts| :: Number(parts[i])
  }

  lemma {:induction false} DottedIsBase(parts: seq<string>)
    requires Numbers(parts)
    ensures Base(Dotted(parts))
  {
    hide Base;
    var n := |parts| - 1;
    OneMorePart(if n == 0 then "" else Dotted(parts[..n]), parts[n]);
    if n > 0 {
      DottedIsBase(parts[..n]);
    }
  }

  lemma {:induction false} BaseParts(s: string) returns (parts: seq<string>)
    requires Base(s)
    ensures Numbers(parts) && s == Dotted(parts)
    decreases |s|
  {
    hide Base;
    var x, d := LastPart(s);
    if Parts(s) == 1 {
      parts := [d];
    } else {
      var front := BaseParts(x);
      parts := front + [d];
      assert parts[..|parts| - 1] == front;
    }
  }

  /** The base of a version is one or more numbers joined by dots. */
  lemma BaseIff(s: string)
    ensures Base(s) <==> exists parts :: Numbers(parts) && s == Dotted(parts)
  {
    hide Base, Numbers, Dotted;
    if Base(s) {
      var parts := BaseParts(s);
    }
    if parts :| Numbers(parts) && s == Dotted(parts) {
      DottedIsBase(parts);
    }
  }

  /** Every accepted version survives the trip to its tag and back, and a tag is its own tag. */
  lemma TagRoundTrip(s: string)
    requires Tag(s).Ok?
    ensures Normalise(Tag(s).value) == Normalise(s)
    ensures Tag(Tag(s).value) == Tag(s)
  {
    hide Normalise, Scan, Base, Text, Release;
    TagOf(s);
    NormaliseTagged(Scan(Normalise(s).value).value);
  }

  /** Two spellings get the same tag exactly if they are the same version. */
  lemma TagsIdentify(s: string, t: string)
    requires Tag(s).Ok? && Tag(t).Ok?
    ensures Tag(s) == Tag(t) <==> Normalise(s) == Normalise(t)
  {
    hide Normalise, Scan, Base, Text, Release;
    TagRoundTrip(s);
    TagRoundTrip(t);
  }

  /** The cascade of rewritings accepts a spelling nobody documents: an alpha after "-bet" is a beta. */
  lemma UndocumentedBeta()
    ensures Normalise("1-bet-alpha2") == Ok("1b2")
  {
    hide Normalise, Strip, Unprefixed, SplitNumber, Spells;
    var v := Version("1", Some(Pre(Beta, "2")), None);
    SplitNumberIff("1", "", "1");
    assert Text(v) == "1b2";
    var s := "1-bet-alpha2";
    assert s[0] == '1' && s[11] == '2';
    StripNothing(s);
    NoPrefix(s);
    SpelledBeta(s, v);
    NormaliseIff(s, v);
  }

  lemma NoPrefix(s: string)
    requires s != "" && Digit(s[0])
    ensures Unprefixed(s) == s
  {
    assert "rust-v"[0] == 'r' && "v"[0] == 'v';
  }

  lemma SpelledBeta(s: string, v: Version)
    requires v.pre.Some? && v.post.None? && v.pre.value.kind == Beta && Number(v.pre.value.number)
    requires s == v.base + "-bet-alpha" + v.pre.value.number
    ensures Spells(s, v)
  {
  }

  // ---------------------------------------------------------------- Python runtime versions

  /** The number of dotted parts of a base. */
  function Parts(s: string): nat
    requires Base(s)
    decreases |s|
  {
    CutAtSplits(s);
    var (x, d) := SplitNumber(s);
    if x == "" then 1 else Parts(x[..|x| - 1]) + 1
  }

  /** Three numbers, and no more than a numbered alpha with an optional post-release of it. */
  predicate Runtime(v: Version) {
    WellFormed(v) && Parts(v.base) == 3
    && (v.pre.None? ==> v.post.None?) && (v.pre.Some? ==> v.pre.value.kind == Alpha)
  }

  function Resolve(version: string): Outcome<(string, string)> {
    if Scan(version).Some? && Runtime(Scan(version).value) && Tag(version).Ok?
    then Ok((version, Tag(version).value)) else Raise
  }

  /** Every runtime version resolves, to a tag that normalises back to it; no two share a tag. */
  lemma ResolveRoundTrip(v: Version)
    requires Runtime(v)
    ensures Resolve(Text(v)) == Ok((Text(v), "rust-v" + Release(v)))
    ensures Normalise("rust-v" + Release(v)) == Ok(Text(v))
  {
    hide Scan, Base, Normalise, Text, Release, Parts;
    ScanText(v);
    NormaliseText(v);
    TagOf(Text(v));
    NormaliseTagged(v);
  }

  /** Another dotted number is another part. */
  lemma OneMorePart(x: string, d: string)
    requires Number(d)
    ensures Base(x + "." + d) <==> Base(x)
    ensures Base(x) ==> Parts(x + "." + d) == Parts(x) + 1
    ensures Base(d) && Parts(d) == 1
  {
    var s := x + "." + d;
    SplitNumberIff(s, x + ".", d);
    SplitNumberIff(d, "", d);
    assert (x + ".")[..|x|] == x && (x + ".")[|x|] == '.';
  }

  /** A base is a number, or a base and another dotted number. */
  lemma LastPart(s: string) returns (x: string, d: string)
    requires Base(s)
    ensures Number(d)
    ensures Parts(s) == 1 ==> s == d
    ensures Parts(s) != 1 ==> s == x + "." + d && Base(x) && Parts(s) == Parts(x) + 1
  {
    var (r, n) := SplitNumber(s);
    SplitNumberIff(s, r, n);
    d := n;
    x := "";
    if r == "" {
      assert s == n;
    } else {
      x := r[..|r| - 1];
      assert r == x + ".";
      OneMorePart(x, d);
    }
  }

  lemma PartsPositive(s: string)
    requires Base(s)
    ensures Parts(s) >= 1
  {
  }

  ghost predicate ThreeNumbers(base: string) {
    exists a, b, c :: Number(a) && Number(b) && Number(c) && base == a + "." + b + "." + c
  }

  lemma ThreePartsIff(base: string)
    ensures Base(base) && Parts(base) == 3 <==> ThreeNumbers(base)
  {
    hide Base, Parts;
    if Base(base) && Parts(base) == 3 {
      var x, c := LastPart(base);
      var y, b := LastPart(x);
      PartsPositive(y);
      var z, a := LastPart(y);
      assert base == a + "." + b + "." + c;
    }
    if a, b, c :| Number(a) && Number(b) && Number(c) && base == a + "." + b + "." + c {
      OneMorePart("", a);
      OneMorePart(a, b);
      OneMorePart(a + "." + b, c);
    }
  }

  predicate AlphaTagged(base: string, version: string, tag: string, n: string) {
    Number(n) && version == base + "a" + n && tag == "rust-v" + base + "-alpha." + n
  }

  predicate HotfixTagged(base: string, version: string, tag: string, n: string, m: string) {
    Number(n) && Number(m)
    && version == base + "a" + n + ".post" + m && tag == "rust-v" + base + "-alpha." + n + "." + m
  }

  /** The runtime versions with three given numbers, and their tags. */
  ghost predicate Tagged(base: string, version: string, tag: string) {
    (version == base && tag == "rust-v" + base)
    || (exists n :: AlphaTagged(base, version, tag, n))
    || (exists n, m :: HotfixTagged(base, version, tag, n, m))
  }

  lemma TaggedIff(base: string, version: string, tag: string)
    requires ThreeNumbers(base)
    ensures Tagged(base, version, tag)
       <==> exists v :: Runtime(v) && v.base == base && version == Text(v) && tag == "rust-v" + Release(v)
  {
    hide Base, Parts;
    ThreePartsIff(base);
    if v :| Runtime(v) && v.base == base && version == Text(v) && tag == "rust-v" + Release(v) {
      TaggedOne(v);
    }
    if version == base && tag == "rust-v" + base {
      var v := Version(base, None, None);
      TextsOf(v);
      assert Runtime(v) && version == Text(v);
    }
    if n :| AlphaTagged(base, version, tag, n) {
      var v := Version(base, Some(Pre(Alpha, n)), None);
      TextsOf(v);
      assert Runtime(v) && version == Text(v);
    }
    if n, m :| HotfixTagged(base, version, tag, n, m) {
      var v := Version(base, Some(Pre(Alpha, n)), Some(m));
      TextsOf(v);
      assert Runtime(v) && version == Text(v);
    }
  }

  /** The texts of a runtime version, and of its release, written out. */
  lemma TextsOf(v: Version)
    requires (v.pre.None? ==> v.post.None?) && (v.pre.Some? ==> v.pre.value.kind == Alpha)
    ensures v.pre.None? ==> Text(v) == v.base && Release(v) == v.base
    ensures v.pre.Some? && v.post.None? ==>
      Text(v) == v.base + "a" + v.pre.value.number
      && "rust-v" + Release(v) == "rust-v" + v.base + "-alpha." + v.pre.value.number
    ensures v.pre.Some? && v.post.Some? ==>
      Text(v) == v.base + "a" + v.pre.value.number + ".post" + v.post.value
      && "rust-v" + Release(v) == "rust-v" + v.base + "-alpha." + v.pre.value.number + "." + v.post.value
  {
    assert "-alpha" + "." == "-alpha.";
    if v.pre.Some? {
      var n := v.pre.value.number;
      assert v.base + "-alpha" + "." + n == v.base + "-alpha." + n;
      assert "rust-v" + (v.base + "-alpha." + n) == "rust-v" + v.base + "-alpha." + n;
      if v.post.Some? {
        var m := v.post.value;
        assert v.base + "-alpha" + "." + n + "." + m == v.base + "-alpha." + n + "." + m;
        assert "rust-v" + (v.base + "-alpha." + n + "." + m) == "rust-v" + v.base + "-alpha." + n + "." + m;
      }
    }
  }

  lemma TaggedOne(v: Version)
    requires Runtime(v)
    ensures Tagged(v.base, Text(v), "rust-v" + Release(v))
  {
    hide Base, Parts, Text, Release;
    TextsOf(v);
    if v.pre.Some? {
      if v.post.None? {
        assert AlphaTagged(v.base, Text(v), "rust-v" + Release(v), v.pre.value.number);
      } else {
        assert HotfixTagged(v.base, Text(v), "rust-v" + Release(v), v.pre.value.number, v.post.value);
      }
    }
  }

  /**
   Exactly which runtime versions resolve, and to what: three numbers give their release, an
   alpha its numbered prerelease, an alpha post-release the hotfix of that.
   */
  lemma ResolveIff(version: string, tag: string)
    ensures Resolve(version) == Ok((version, tag))
       <==> exists base :: ThreeNumbers(base) && Tagged(base, version, tag)
    ensures Resolve(version).Ok? ==> Resolve(version).value.0 == version
  {
    hide Scan, Base, Parts, Tag, Text, Release, Tagged, ThreeNumbers, Normalise;
    if Resolve(version) == Ok((version, tag)) {
      var v := Scan(version).value;
      ScanSound(version);
      ResolveRoundTrip(v);
      ThreePartsIff(v.base);
      TaggedIff(v.base, version, tag);
    }
    if base :| ThreeNumbers(base) && Tagged(base, version, tag) {
      TaggedIff(base, version, tag);
      var v :| Runtime(v) && v.base == base && version == Text(v) && tag == "rust-v" + Release(v);
      ResolveRoundTrip(v);
    }
  }

  lemma ResolveInjective(s: string, t: string)
    requires Resolve(s).Ok? && Resolve(t).Ok? && Resolve(s).value.1 == Resolve(t).value.1
    ensures s == t
  {
    hide Scan, Base, Normalise, Text, Release, Parts;
    TagsIdentify(s, t);
    ScanSound(s);
    ScanSound(t);
    NormaliseText(Scan(s).value);
    NormaliseText(Scan(t).value);
  }
}
