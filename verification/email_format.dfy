/** The e-mail format test both validators share: `validateEmail(email)`,
    which is `/[^@]+@[^@]+\.[^@]+/.test(email)`.

    The regular expression is not anchored, so the test asks whether SOME
    substring of the input has the shape: a run of non-`@` characters, an
    `@`, a run of non-`@` characters, a literal `.`, a run of non-`@`
    characters. `Matches` says exactly that, with indices. `IsValidEmail`
    decides it with a single left-to-right pass of a six-state automaton,
    and is proved to agree with `Matches` on every string.
 */
module EmailFormat {

  /** No `@` among `s[a..b]`. (`[^@]` also matches `.` and line terminators.) */
  ghost predicate NoAt(s: string, a: int, b: int)
    requires 0 <= a <= b <= |s|
  {
    forall x :: a <= x < b ==> s[x] != '@'
  }

  /** `s[i..l]` matches the pattern, with its `@` at `j` and its `.` at `k`:
      `s[i..j]`, `s[j+1..k]` and `s[k+1..l]` are the three non-empty runs. */
  ghost predicate MatchAt(s: string, i: int, j: int, k: int, l: int) {
    0 <= i < j && j + 1 < k && k + 1 < l <= |s| &&
    s[j] == '@' && s[k] == '.' &&
    NoAt(s, i, j) && NoAt(s, j + 1, k) && NoAt(s, k + 1, l)
  }

  /** What `regex.test(s)` answers: some substring of `s` matches. */
  ghost predicate Matches(s: string) {
    exists i, j, k, l :: MatchAt(s, i, j, k, l)
  }

  // What a prefix `p` of the input already holds, short of a full match.

  /** `p` ends in a non-`@` character (a possible local part). */
  ghost predicate LocalPending(p: string) {
    |p| >= 1 && p[|p| - 1] != '@'
  }

  /** `p` ends in a non-`@` character followed by `@`. */
  ghost predicate AtPending(p: string) {
    |p| >= 2 && p[|p| - 1] == '@' && p[|p| - 2] != '@'
  }

  /** `p` ends in non-`@`, `@` (at `j`), then a non-empty run of non-`@`. */
  ghost predicate DomainAt(p: string, j: int) {
    1 <= j && j + 1 < |p| && p[j - 1] != '@' && p[j] == '@' && NoAt(p, j + 1, |p|)
  }

  ghost predicate DomainPending(p: string) {
    exists j :: DomainAt(p, j)
  }

  /** `p` ends in non-`@`, `@` (at `j`), a non-empty run of non-`@`, then `.`:
      one more non-`@` character completes a match. */
  ghost predicate DotAt(p: string, j: int) {
    1 <= j && j + 2 < |p| && p[j - 1] != '@' && p[j] == '@' &&
    p[|p| - 1] == '.' && NoAt(p, j + 1, |p| - 1)
  }

  ghost predicate DotPending(p: string) {
    exists j :: DotAt(p, j)
  }

  /** The states of the scanner. */
  datatype ScanState = Idle | Local | At | Domain | Dot | Found

  /** The meaning of each state: what the characters read so far, `p`, hold. */
  ghost predicate Describes(st: ScanState, p: string) {
    match st
    case Found => Matches(p)
    case Dot => !Matches(p) && DotPending(p)
    case Domain => !Matches(p) && !DotPending(p) && DomainPending(p)
    case At => !Matches(p) && AtPending(p)
    case Local => !Matches(p) && !DomainPending(p) && LocalPending(p)
    case Idle => !Matches(p) && !LocalPending(p) && !AtPending(p)
  }

  /** One character of input. */
  function Step(st: ScanState, c: char): ScanState {
    match st
    case Found => Found
    case Idle => if c == '@' then Idle else Local
    case Local => if c == '@' then At else Local
    case At => if c == '@' then Idle else Domain
    case Domain => if c == '@' then At else if c == '.' then Dot else Domain
    case Dot => if c == '@' then At else Found
  }

  /** The scanner run over `s`, starting in `st`. */
  function Run(st: ScanState, s: string): ScanState
    decreases |s|
  {
    if s == [] then st else Run(Step(st, s[0]), s[1..])
  }

  /** `validateEmail`: the scanner, started fresh, ends in `Found`. */
  function IsValidEmail(s: string): (ok: bool)
    ensures ok <==> Matches(s)
  {
    assert [] + s == s;
    RunDescribes(Idle, [], s);
    Run(Idle, s) == Found
  }

  /** Characters of `p` keep their positions in `p + [c]`. */
  lemma NoAtExtend(p: string, c: char, a: int, b: int)
    requires 0 <= a <= b <= |p|
    ensures NoAt(p + [c], a, b) <==> NoAt(p, a, b)
  {
    forall x | a <= x < b ensures (p + [c])[x] == p[x] {}
  }

  /** Appending a character to `p` creates a match exactly when `p` already
      had one, or was one non-`@` character short of one. */
  lemma MatchesExtend(p: string, c: char)
    ensures Matches(p + [c]) <==> Matches(p) || (c != '@' && DotPending(p))
  {
    var q := p + [c];
    if Matches(p) {
      var i, j, k, l :| MatchAt(p, i, j, k, l);
      NoAtExtend(p, c, i, j);
      NoAtExtend(p, c, j + 1, k);
      NoAtExtend(p, c, k + 1, l);
      assert MatchAt(q, i, j, k, l);
    }
    if c != '@' && DotPending(p) {
      var j :| DotAt(p, j);
      NoAtExtend(p, c, j + 1, |p| - 1);
      assert MatchAt(q, j - 1, j, |p| - 1, |p| + 1);
    }
    if Matches(q) {
      var i, j, k, l :| MatchAt(q, i, j, k, l);
      NoAtExtend(p, c, i, j);
      NoAtExtend(p, c, j + 1, k);
      if l <= |p| {
        NoAtExtend(p, c, k + 1, l);
        assert MatchAt(p, i, j, k, l);
      } else if k + 1 < |p| {
        NoAtExtend(p, c, k + 1, |p|);
        assert MatchAt(p, i, j, k, |p|);
      } else {
        assert q[|p|] == c;
        assert q[j - 1] != '@';
        assert DotAt(p, j);
      }
    }
  }

  lemma DotExtend(p: string, c: char)
    ensures DotPending(p + [c]) <==> c == '.' && DomainPending(p)
  {
    var q := p + [c];
    if DotPending(q) {
      var j :| DotAt(q, j);
      NoAtExtend(p, c, j + 1, |p|);
      assert DomainAt(p, j);
    }
    if c == '.' && DomainPending(p) {
      var j :| DomainAt(p, j);
      NoAtExtend(p, c, j + 1, |p|);
      assert DotAt(q, j);
    }
  }

  lemma DomainExtend(p: string, c: char)
    ensures DomainPending(p + [c]) <==> c != '@' && (DomainPending(p) || AtPending(p))
  {
    var q := p + [c];
    if DomainPending(q) {
      var j :| DomainAt(q, j);
      assert q[|p|] == c && q[j - 1] == p[j - 1];
      if j + 1 < |p| {
        NoAtExtend(p, c, j + 1, |p|);
        assert DomainAt(p, j);
      }
    }
    if c != '@' && DomainPending(p) {
      var j :| DomainAt(p, j);
      NoAtExtend(p, c, j + 1, |p|);
      assert DomainAt(q, j);
    }
    if c != '@' && AtPending(p) {
      assert q[|p|] == c;
      assert DomainAt(q, |p| - 1);
    }
  }

  /** A pending `.` is also a pending domain run, and a pending domain run
      ends in a non-`@` character. */
  lemma PendingOrder(p: string)
    ensures DotPending(p) ==> DomainPending(p)
    ensures DomainPending(p) ==> LocalPending(p)
  {
    if DotPending(p) {
      var j :| DotAt(p, j);
      assert DomainAt(p, j);
    }
  }

  /** Each transition of the scanner keeps its state's meaning true. */
  lemma StepDescribes(st: ScanState, p: string, c: char)
    requires Describes(st, p)
    ensures Describes(Step(st, c), p + [c])
  {
    MatchesExtend(p, c);
    DotExtend(p, c);
    DomainExtend(p, c);
    PendingOrder(p);
    PendingOrder(p + [c]);
  }

  lemma {:induction false} RunDescribes(st: ScanState, p: string, s: string)
    requires Describes(st, p)
    ensures Describes(Run(st, s), p + s)
    decreases |s|
  {
    if s != [] {
      StepDescribes(st, p, s[0]);
      assert p + [s[0]] + s[1..] == p + s;
      RunDescribes(Step(st, s[0]), p + [s[0]], s[1..]);
    } else {
      assert p + s == p;
    }
  }

  /** More than one `@` does not make an address invalid: the test is
      satisfied by the substring `b@c.d`. */
  lemma AcceptsSeveralAts()
    ensures IsValidEmail("a@b@c.d")
  {
    assert MatchAt("a@b@c.d", 2, 3, 5, 7);
  }

  /** The run between `@` and `.` must not be empty. */
  lemma RejectsDotRightAfterAt()
    ensures !IsValidEmail("a@.b")
  {
  }

  /** The run after the `.` must not be empty. */
  lemma RejectsTrailingDot()
    ensures !IsValidEmail("a@b.")
  {
  }
}
