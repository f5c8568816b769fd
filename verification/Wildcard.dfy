/** The search-pattern matcher of QUERY_DIRECTORY (internal/smb/info.go).

    `Glob` is the reference meaning of a pattern. `WildcardMatch` is the linear matcher the server
    runs, which remembers only the latest star. The two agree on every pattern exactly when the
    name holds no star itself.
  */
module Wildcard {

  // ----- reference semantics -----

  /** '*' stands for any run of characters, '?' for any single one, everything else for itself. */
  ghost predicate Glob(pattern: string, name: string)
    decreases |pattern|, |name|
  {
    if pattern == "" then name == ""
    else if pattern[0] == '*' then
      Glob(pattern[1..], name) || (name != "" && Glob(pattern, name[1..]))
    else name != "" && (pattern[0] == '?' || pattern[0] == name[0]) && Glob(pattern[1..], name[1..])
  }

  /** One character that is not taken as a star. */
  predicate FitsOne(p: char, c: char) { p == '?' || p == c }

  // ----- the matcher -----

  /** The cursors of the loop: pattern and name positions, the latest star (None before the first
      one) and the name position that star's run currently ends at. */
  datatype Cursor = Cursor(p: nat, n: nat, star: int, mark: nat)

  ghost predicate Sane(pattern: string, name: string, k: Cursor) {
    && k.p <= |pattern| && k.n <= |name| && k.mark <= k.n
    && -1 <= k.star < k.p
  }

  /** One turn of the loop, or None when the matcher gives up. */
  function Turn(pattern: string, name: string, k: Cursor): (r: Cursor)
    requires Sane(pattern, name, k) && k.n < |name|
    requires !Stuck(pattern, name, k)
    ensures Sane(pattern, name, r)
  {
    if k.p < |pattern| && FitsOne(pattern[k.p], name[k.n]) then k.(p := k.p + 1, n := k.n + 1)
    else if k.p < |pattern| && pattern[k.p] == '*' then Cursor(k.p + 1, k.n, k.p, k.n)
    else Cursor(k.star + 1, k.mark + 1, k.star, k.mark + 1)
  }

  predicate Stuck(pattern: string, name: string, k: Cursor)
    requires Sane(pattern, name, k) && k.n < |name|
  {
    && k.star < 0
    && !(k.p < |pattern| && (FitsOne(pattern[k.p], name[k.n]) || pattern[k.p] == '*'))
  }

  /** What the matcher answers from a given cursor. */
  function Answer(pattern: string, name: string, k: Cursor): bool
    requires Sane(pattern, name, k)
    decreases |name| - k.mark, |name| - k.n, |pattern| - k.p
  {
    if k.n == |name| then AllStars(pattern[k.p..])
    else !Stuck(pattern, name, k) && Answer(pattern, name, Turn(pattern, name, k))
  }

  predicate AllStars(pattern: string) { forall i :: 0 <= i < |pattern| ==> pattern[i] == '*' }

  const START := Cursor(0, 0, -1, 0)

  /** wildcardMatch: greedy, with backtracking to the latest star only. */
  method WildcardMatch(pattern: string, name: string) returns (matched: bool)
    ensures matched == Answer(pattern, name, START)
    ensures matched ==> Glob(pattern, name)
    ensures '*' !in name ==> (matched <==> Glob(pattern, name))
  {
    if '*' !in name {
      AgreesWithGlob(pattern, name);
    } else {
      SoundOnEveryName(pattern, name);
    }
    var p, n, star, mark := 0, 0, -1, 0;
    while n < |name|
      invariant Sane(pattern, name, Cursor(p, n, star, mark))
      invariant Answer(pattern, name, START) == Answer(pattern, name, Cursor(p, n, star, mark))
      decreases |name| - mark, |name| - n, |pattern| - p
    {
      if p < |pattern| && (pattern[p] == '?' || pattern[p] == name[n]) {
        p, n := p + 1, n + 1;
      } else if p < |pattern| && pattern[p] == '*' {
        star, mark := p, n;
        p := p + 1;
      } else if star >= 0 {
        p := star + 1;
        mark := mark + 1;
        n := mark;
      } else {
        return false;
      }
    }
    ghost var tail := p;
    while p < |pattern| && pattern[p] == '*'
      invariant tail <= p <= |pattern|
      invariant forall i :: tail <= i < p ==> pattern[i] == '*'
    {
      p := p + 1;
    }
    return p == |pattern|;
  }

  // ----- the greedy matcher against the reference -----

  /** A star matches exactly when what follows it matches some suffix of the name. */
  lemma {:induction false} StarMatchesSomeSuffix(rest: string, name: string)
    ensures Glob("*" + rest, name) <==> exists k :: 0 <= k <= |name| && Glob(rest, name[k..])
    decreases |name|
  {
    assert ("*" + rest)[1..] == rest;
    assert name[0..] == name;
    if name != "" {
      StarMatchesSomeSuffix(rest, name[1..]);
      assert forall k :: 0 <= k < |name| ==> name[1..][k..] == name[k + 1..];
      if k :| 0 <= k <= |name| && Glob(rest, name[k..]) {
        if k > 0 { assert name[1..][k - 1..] == name[k..]; }
      }
    }
  }

  /** A star-free segment must be spent character by character. */
  lemma {:induction false} SegmentIsSpent(seg: string, rest: string, name: string)
    requires '*' !in seg && Glob(seg + rest, name)
    ensures |seg| <= |name| && Glob(rest, name[|seg|..])
  {
    if seg == "" {
      assert seg + rest == rest;
    } else {
      assert (seg + rest)[1..] == seg[1..] + rest;
      assert (seg + rest)[0] == seg[0];
      SegmentIsSpent(seg[1..], rest, name[1..]);
      assert name[1..][|seg| - 1..] == name[|seg|..];
    }
  }

  /** Does a later end of the latest star's run lead to a match? */
  ghost predicate LaterRun(pattern: string, name: string, k: Cursor)
    requires Sane(pattern, name, k)
  {
    k.star >= 0 && exists e :: k.mark < e <= |name| && Glob(pattern[k.star + 1..], name[e..])
  }

  /** Since the latest star, the matcher has followed a star-free segment. */
  ghost predicate OnSegment(pattern: string, name: string, k: Cursor)
    requires Sane(pattern, name, k)
  {
    k.star >= 0 ==>
      && pattern[k.star] == '*'
      && '*' !in pattern[k.star + 1..k.p]
      && k.p - k.star - 1 == k.n - k.mark
  }

  ghost predicate Open(pattern: string, name: string, k: Cursor)
    requires Sane(pattern, name, k)
  {
    Glob(pattern[k.p..], name[k.n..]) || LaterRun(pattern, name, k)
  }

  /** Only the latest star need be retried: what an earlier star could still reach, the new one can. */
  lemma LatestStarSuffices(pattern: string, name: string, k: Cursor)
    requires Sane(pattern, name, k) && OnSegment(pattern, name, k)
    requires k.p < |pattern| && pattern[k.p] == '*' && LaterRun(pattern, name, k)
    ensures exists e :: k.n < e <= |name| && Glob(pattern[k.p + 1..], name[e..])
  {
    var e :| k.mark < e <= |name| && Glob(pattern[k.star + 1..], name[e..]);
    var seg, rest := pattern[k.star + 1..k.p], pattern[k.p + 1..];
    assert pattern[k.star + 1..] == seg + ("*" + rest);
    SegmentIsSpent(seg, "*" + rest, name[e..]);
    var e' := e + |seg|;
    assert name[e..][|seg|..] == name[e'..];
    StarMatchesSomeSuffix(rest, name[e'..]);
    var j :| 0 <= j <= |name[e'..]| && Glob(rest, name[e'..][j..]);
    assert name[e'..][j..] == name[e' + j..];
  }

  /** A turn keeps the question open exactly when it was open. */
  lemma TurnKeepsOpen(pattern: string, name: string, k: Cursor)
    requires Sane(pattern, name, k) && OnSegment(pattern, name, k) && k.n < |name|
    requires '*' !in name && !Stuck(pattern, name, k)
    ensures var k' := Turn(pattern, name, k);
      OnSegment(pattern, name, k') && (Open(pattern, name, k) <==> Open(pattern, name, k'))
  {
    var k' := Turn(pattern, name, k);
    if k.p < |pattern| && FitsOne(pattern[k.p], name[k.n]) {
      assert pattern[k.p] != '*';
      assert pattern[k.p..][1..] == pattern[k'.p..] && name[k.n..][1..] == name[k'.n..];
    } else if k.p < |pattern| && pattern[k.p] == '*' {
      var rest := pattern[k.p + 1..];
      assert pattern[k.p..] == "*" + rest;
      StarMatchesSomeSuffix(rest, name[k.n..]);
      forall e | 0 <= e <= |name| - k.n ensures name[k.n..][e..] == name[k.n + e..] {}
      if LaterRun(pattern, name, k) { LatestStarSuffices(pattern, name, k); }
      if e :| k.n < e <= |name| && Glob(rest, name[e..]) {
        assert name[k.n..][e - k.n..] == name[e..];
      }
    }
  }

  /** Once the name is used up a later run has too few characters left. */
  lemma NothingLeftToRetry(pattern: string, name: string, k: Cursor)
    requires Sane(pattern, name, k) && OnSegment(pattern, name, k) && k.n == |name|
    ensures !LaterRun(pattern, name, k)
  {
    if LaterRun(pattern, name, k) {
      var e :| k.mark < e <= |name| && Glob(pattern[k.star + 1..], name[e..]);
      assert pattern[k.star + 1..] == pattern[k.star + 1..k.p] + pattern[k.p..];
      SegmentIsSpent(pattern[k.star + 1..k.p], pattern[k.p..], name[e..]);
    }
  }

  lemma {:induction false} OnlyStarsMatchNothing(pattern: string)
    ensures Glob(pattern, "") <==> AllStars(pattern)
  {
    if pattern != "" {
      OnlyStarsMatchNothing(pattern[1..]);
      if AllStars(pattern[1..]) && pattern[0] == '*' {
        assert forall i :: 0 < i < |pattern| ==> pattern[i] == pattern[1..][i - 1];
      }
    }
  }

  lemma {:induction false} AnswerIsOpen(pattern: string, name: string, k: Cursor)
    requires Sane(pattern, name, k) && OnSegment(pattern, name, k) && '*' !in name
    ensures Answer(pattern, name, k) <==> Open(pattern, name, k)
    decreases |name| - k.mark, |name| - k.n, |pattern| - k.p
  {
    if k.n == |name| {
      NothingLeftToRetry(pattern, name, k);
      OnlyStarsMatchNothing(pattern[k.p..]);
      assert name[k.n..] == "";
    } else if !Stuck(pattern, name, k) {
      TurnKeepsOpen(pattern, name, k);
      AnswerIsOpen(pattern, name, Turn(pattern, name, k));
    }
  }

  /** On a name without a star the greedy matcher is the reference semantics, for every pattern. */
  lemma AgreesWithGlob(pattern: string, name: string)
    requires '*' !in name
    ensures Answer(pattern, name, START) <==> Glob(pattern, name)
  {
    AnswerIsOpen(pattern, name, START);
    assert pattern[0..] == pattern && name[0..] == name;
  }

  // ----- names that hold a star -----

  /** The part of the pattern read so far, with the current run of the latest star, matches the
      part of the name read so far: any completion of the one completes the other. */
  ghost predicate Covered(pattern: string, name: string, p: nat, n: nat)
    requires p <= |pattern| && n <= |name|
  {
    Glob(pattern[p..], name[n..]) ==> Glob(pattern, name)
  }

  lemma CoverStep(pattern: string, name: string, p: nat, n: nat)
    requires p < |pattern| && n < |name| && Covered(pattern, name, p, n)
    ensures FitsOne(pattern[p], name[n]) ==> Covered(pattern, name, p + 1, n + 1)
    ensures pattern[p] == '*' ==> Covered(pattern, name, p, n + 1) && Covered(pattern, name, p + 1, n)
  {
    assert pattern[p..][1..] == pattern[p + 1..] && name[n..][1..] == name[n + 1..];
    if FitsOne(pattern[p], name[n]) && pattern[p] == '*' && Glob(pattern[p + 1..], name[n + 1..]) {
      StarMatchesSomeSuffix(pattern[p + 1..], name[n..]);
      assert pattern[p..] == "*" + pattern[p + 1..];
      assert name[n..][1..] == name[n + 1..];
    }
  }

  lemma {:induction false} AnswerIsSound(pattern: string, name: string, k: Cursor)
    requires Sane(pattern, name, k) && Covered(pattern, name, k.p, k.n)
    requires k.star >= 0 ==> pattern[k.star] == '*' && Covered(pattern, name, k.star, k.mark)
    ensures Answer(pattern, name, k) ==> Glob(pattern, name)
    decreases |name| - k.mark, |name| - k.n, |pattern| - k.p
  {
    if k.n == |name| {
      OnlyStarsMatchNothing(pattern[k.p..]);
      assert name[k.n..] == "";
    } else if !Stuck(pattern, name, k) {
      if k.p < |pattern| { CoverStep(pattern, name, k.p, k.n); }
      if k.star >= 0 {
        CoverStep(pattern, name, k.star, k.mark);
        if k.mark + 1 < |name| { CoverStep(pattern, name, k.star, k.mark + 1); }
        else {
          assert pattern[k.star..][1..] == pattern[k.star + 1..];
        }
      }
      AnswerIsSound(pattern, name, Turn(pattern, name, k));
    }
  }

  /** Whatever the name, an accepted name is one the reference semantics accepts. */
  lemma SoundOnEveryName(pattern: string, name: string)
    ensures Answer(pattern, name, START) ==> Glob(pattern, name)
  {
    assert pattern[0..] == pattern && name[0..] == name;
    AnswerIsSound(pattern, name, START);
  }

  /** A pattern that fits a name from its first star on, but that the matcher rejects: the star of
      the pattern is spent on the star of the name. */
  function Spoiler(name: string, i: nat): string
    requires i <= |name|
  {
    name[..i] + "*" + seq(|name| - i, _ => '?')
  }

  lemma {:induction false} QuestionsFit(name: string)
    ensures Glob(seq(|name|, _ => '?'), name)
  {
    if name != "" {
      QuestionsFit(name[1..]);
      assert seq(|name|, _ => '?')[1..] == seq(|name[1..]|, _ => '?');
    }
  }

  lemma {:induction false} LiteralPrefixFits(prefix: string, rest: string, name: string)
    requires '*' !in prefix && Glob(rest, name)
    ensures Glob(prefix + rest, prefix + name)
  {
    if prefix == "" {
      assert prefix + rest == rest && prefix + name == name;
    } else {
      LiteralPrefixFits(prefix[1..], rest, name);
      assert (prefix + rest)[1..] == prefix[1..] + rest && (prefix + name)[1..] == prefix[1..] + name;
    }
  }

  lemma {:induction false} SpoilerIsRejected(name: string, i: nat, k: nat)
    requires i < |name| && name[i] == '*' && '*' !in name[..i] && k <= |name|
    ensures !Answer(Spoiler(name, i), name, Cursor(k, k, -1, 0))
    decreases |name| - k
  {
    var pattern := Spoiler(name, i);
    if k == |name| {
      assert pattern[k..][0] == '?';
    } else {
      assert FitsOne(pattern[k], name[k]);
      SpoilerIsRejected(name, i, k + 1);
    }
  }

  /** Exactly when the matcher can be trusted on a name, whatever the pattern: when the name holds
      no star. (A name may hold one on a POSIX backend.) */
  lemma TrustedExactlyWithoutStar(name: string)
    ensures (forall pattern: string :: Answer(pattern, name, START) <==> Glob(pattern, name)) <==> '*' !in name
  {
    if '*' !in name {
      forall pattern: string ensures Answer(pattern, name, START) <==> Glob(pattern, name) {
        AgreesWithGlob(pattern, name);
      }
    } else {
      var i := FirstStar(name);
      var pattern := Spoiler(name, i);
      SpoilerIsRejected(name, i, 0);
      var rest := seq(|name| - i, _ => '?');
      QuestionsFit(name[i..]);
      assert rest == seq(|name[i..]|, _ => '?');
      assert ("*" + rest)[1..] == rest;
      assert Glob("*" + rest, name[i..]);
      LiteralPrefixFits(name[..i], "*" + rest, name[i..]);
      assert name[..i] + name[i..] == name;
      assert name[..i] + ("*" + rest) == pattern;
    }
  }

  lemma {:induction false} FirstStar(name: string) returns (i: nat)
    requires '*' in name
    ensures i < |name| && name[i] == '*' && '*' !in name[..i]
  {
    if name[0] == '*' { return 0; }
    assert '*' in name[1..] by {
      var j :| 0 <= j < |name| && name[j] == '*';
      assert name[1..][j - 1] == '*';
    }
    var j := FirstStar(name[1..]);
    i := j + 1;
    forall t | 0 <= t < i ensures name[..i][t] != '*' {
      if t > 0 { assert name[1..][..j][t - 1] == name[t]; }
    }
  }
}
