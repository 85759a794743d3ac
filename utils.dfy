/** String helpers of the roster engine (src/classify/Utils.java): the email
    grammar EMAIL_REGEX with its check validateEmail, and center. */
module Utils {
  import opened Wrappers

  // ---------------------------------------------------------------------
  // Character classes (ASCII only)
  // ---------------------------------------------------------------------

  predicate IsLower(c: char) { 'a' <= c <= 'z' }

  predicate IsUpper(c: char) { 'A' <= c <= 'Z' }

  predicate IsDigit(c: char) { '0' <= c <= '9' }

  /** The local-part class [a-z0-9!#$%&'*+/=?^_`{|}~-] of EMAIL_REGEX. */
  predicate IsAtomChar(c: char) {
    || IsLower(c) || IsDigit(c)
    || c == '!' || c == '#' || c == '$' || c == '%' || c == '&' || c == '\''
    || c == '*' || c == '+' || c == '/' || c == '=' || c == '?' || c == '^'
    || c == '_' || c == '`' || c == '{' || c == '|' || c == '}' || c == '~'
    || c == '-'
  }

  /** The domain class [a-z0-9]: the characters a label starts and ends with. */
  predicate IsLabelChar(c: char) { IsLower(c) || IsDigit(c) }

  /** Index of the first occurrence of `c` in `s`, or |s| when there is none. */
  function IndexOf(s: string, c: char): (i: nat)
    ensures i <= |s|
    ensures i < |s| ==> s[i] == c
    ensures forall k | 0 <= k < i :: s[k] != c
  {
    if s == [] then 0 else if s[0] == c then 0 else 1 + IndexOf(s[1..], c)
  }

  /** `s` cut at every `sep`: a separator starts a new piece, any other
      character extends the last one ("a.b." yields "a", "b", ""). */
  function Split(s: string, sep: char): (pieces: seq<string>)
    ensures |pieces| >= 1
    decreases |s|
  {
    if s == [] then [[]]
    else
      var init, c := Split(s[..|s| - 1], sep), s[|s| - 1];
      if c == sep then init + [[]]
      else init[..|init| - 1] + [init[|init| - 1] + [c]]
  }

  // ---------------------------------------------------------------------
  // What EMAIL_REGEX accepts, following the structure of the pattern
  // ---------------------------------------------------------------------

  /** [a-z0-9!#$%&'*+/=?^_`{|}~-]* */
  ghost predicate AtomChars(t: string) {
    forall m | 0 <= m < |t| :: IsAtomChar(t[m])
  }

  /** [a-z0-9-]* */
  ghost predicate LabelChars(t: string) {
    forall m | 0 <= m < |t| :: IsLabelChar(t[m]) || t[m] == '-'
  }

  /** [a-z0-9!#$%&'*+/=?^_`{|}~-]+ */
  ghost predicate IsAtom(t: string) {
    |t| > 0 && AtomChars(t)
  }

  /** [a-z0-9](?:[a-z0-9-]*[a-z0-9])? */
  ghost predicate IsLabel(t: string) {
    |t| > 0 && IsLabelChar(t[0]) && IsLabelChar(t[|t| - 1]) && LabelChars(t)
  }

  /** atom(?:\.atom)* : every dot-separated piece is an atom. */
  ghost predicate IsLocalPart(l: string) {
    var atoms := Split(l, '.');
    forall k | 0 <= k < |atoms| :: IsAtom(atoms[k])
  }

  /** (?:label\.)+label : two or more dot-separated pieces, each a label. */
  ghost predicate IsDomain(d: string) {
    var labels := Split(d, '.');
    |labels| >= 2 && forall k | 0 <= k < |labels| :: IsLabel(labels[k])
  }

  /** The language of EMAIL_REGEX: local part, '@', domain. */
  ghost predicate IsEmailAddress(s: string) {
    exists i | 0 <= i < |s| :: s[i] == '@' && IsLocalPart(s[..i]) && IsDomain(s[i + 1..])
  }

  // ---------------------------------------------------------------------
  // The recogniser: EMAIL_REGEX as a scanner over characters
  // ---------------------------------------------------------------------

  /** Where the scanner stands: at the start of a local atom, inside one, at
      the start of a domain label, inside one (`hyphen`: the last character was
      '-'), or past any possible match. `dotted`: a dot was seen after '@'. */
  datatype ScanState =
    | AtomStart
    | InAtom
    | LabelStart(dotted: bool)
    | InLabel(dotted: bool, hyphen: bool)
    | Rejected

  function Step(st: ScanState, c: char): ScanState {
    match st
    case AtomStart => if IsAtomChar(c) then InAtom else Rejected
    case InAtom =>
      if IsAtomChar(c) then InAtom
      else if c == '.' then AtomStart
      else if c == '@' then LabelStart(false)
      else Rejected
    case LabelStart(dotted) => if IsLabelChar(c) then InLabel(dotted, false) else Rejected
    case InLabel(dotted, hyphen) =>
      if IsLabelChar(c) then InLabel(dotted, false)
      else if c == '-' then InLabel(dotted, true)
      else if c == '.' && !hyphen then LabelStart(true)
      else Rejected
    case Rejected => Rejected
  }

  function Scan(st: ScanState, s: string): ScanState
    decreases |s|
  {
    if s == [] then st else Scan(Step(st, s[0]), s[1..])
  }

  /** `email.matches(EMAIL_REGEX)`: the whole string drives the scanner from the
      start into a label that follows a dot and does not end with '-'. */
  predicate MatchesEmailRegex(s: string) {
    Scan(AtomStart, s) == InLabel(true, false)
  }

  /** validateEmail: passes exactly on the language of EMAIL_REGEX, and
      otherwise fails with InvalidEmail carrying the rejected string. */
  function ValidateEmail(email: string): (r: Outcome<Error>)
    ensures r == Pass <==> IsEmailAddress(email)
    ensures r != Pass ==> r == Fail(InvalidEmail(email))
  {
    MatchesEmailRegexIff(email);
    if MatchesEmailRegex(email) then Pass else Fail(InvalidEmail(email))
  }

  // ---------------------------------------------------------------------
  // Correctness of the scanner
  // ---------------------------------------------------------------------

  ghost predicate AllAtoms(xs: seq<string>) {
    forall k | 0 <= k < |xs| :: IsAtom(xs[k])
  }

  ghost predicate AllLabels(xs: seq<string>) {
    forall k | 0 <= k < |xs| :: IsLabel(xs[k])
  }

  /** A label still being read: [a-z0-9-], starting with [a-z0-9] if non-empty. */
  ghost predicate LabelPrefix(t: string) {
    (|t| > 0 ==> IsLabelChar(t[0])) && LabelChars(t)
  }

  /** The state the scanner must be in after reading a local-part prefix `p`
      (no '@' yet): the finished atoms are atoms, the open one is a prefix. */
  ghost function LocalState(p: string): ScanState {
    var atoms := Split(p, '.');
    var last := atoms[|atoms| - 1];
    if !AllAtoms(atoms[..|atoms| - 1]) || !AtomChars(last) then Rejected
    else if last == [] then AtomStart
    else InAtom
  }

  /** The state the scanner must be in after reading `q` past the '@': the
      finished labels are labels, the open one is a prefix of one. */
  ghost function DomainState(q: string): ScanState {
    var labels := Split(q, '.');
    var last := labels[|labels| - 1];
    if !AllLabels(labels[..|labels| - 1]) || !LabelPrefix(last) then Rejected
    else if last == [] then LabelStart(|labels| > 1)
    else InLabel(|labels| > 1, last[|last| - 1] == '-')
  }

  /** The state the scanner must be in after reading `p` from AtomStart. */
  ghost function Expected(p: string): ScanState {
    var i := IndexOf(p, '@');
    if i == |p| then LocalState(p)
    else if IsLocalPart(p[..i]) then DomainState(p[i + 1..])
    else Rejected
  }

  lemma IndexOfIs(s: string, c: char, i: nat)
    requires i <= |s|
    requires i < |s| ==> s[i] == c
    requires forall k | 0 <= k < i :: s[k] != c
    ensures IndexOf(s, c) == i
  {
  }

  lemma {:induction false} ScanSnoc(st: ScanState, p: string, c: char)
    ensures Scan(st, p + [c]) == Step(Scan(st, p), c)
    decreases |p|
  {
    if p == [] {
      assert p + [c] == [c];
      assert [c][1..] == [];
    } else {
      assert (p + [c])[0] == p[0];
      assert (p + [c])[1..] == p[1..] + [c];
      ScanSnoc(Step(st, p[0]), p[1..], c);
    }
  }

  /** Splitting one character more: a separator opens an empty piece, any
      other character extends the last piece. */
  lemma SplitSnoc(p: string, sep: char, c: char)
    ensures var pieces, n := Split(p, sep), |Split(p, sep)|;
      Split(p + [c], sep) ==
        if c == sep then pieces + [[]]
        else pieces[..n - 1] + [pieces[n - 1] + [c]]
  {
    assert (p + [c])[..|p|] == p;
  }

  lemma LocalStateIsInAtom(p: string)
    ensures LocalState(p) == InAtom <==> IsLocalPart(p)
  {
    var atoms := Split(p, '.');
    assert atoms[..|atoms| - 1] + [atoms[|atoms| - 1]] == atoms;
  }

  lemma AtomCharsSnoc(t: string, c: char)
    ensures AtomChars(t + [c]) <==> AtomChars(t) && IsAtomChar(c)
  {
    assert forall m | 0 <= m < |t| :: (t + [c])[m] == t[m];
    assert (t + [c])[|t|] == c;
  }

  lemma LabelPrefixSnoc(t: string, c: char)
    ensures LabelPrefix(t + [c]) <==>
      && LabelPrefix(t)
      && (IsLabelChar(c) || c == '-')
      && (t == [] ==> IsLabelChar(c))
  {
    assert forall m | 0 <= m < |t| :: (t + [c])[m] == t[m];
    assert (t + [c])[|t|] == c;
    assert t != [] ==> (t + [c])[0] == t[0];
  }

  lemma AllAtomsSnoc(xs: seq<string>, x: string)
    ensures AllAtoms(xs + [x]) <==> AllAtoms(xs) && IsAtom(x)
  {
    assert forall k | 0 <= k < |xs| :: (xs + [x])[k] == xs[k];
    assert (xs + [x])[|xs|] == x;
  }

  lemma AllLabelsSnoc(xs: seq<string>, x: string)
    ensures AllLabels(xs + [x]) <==> AllLabels(xs) && IsLabel(x)
  {
    assert forall k | 0 <= k < |xs| :: (xs + [x])[k] == xs[k];
    assert (xs + [x])[|xs|] == x;
  }

  lemma SeparatorsAreNotAtomChars()
    ensures !IsAtomChar('.') && !IsAtomChar('@')
  {
  }

  lemma LocalStateSnocDot(p: string)
    requires Split(p + ['.'], '.') == Split(p, '.') + [[]]
    ensures LocalState(p + ['.']) ==
      if LocalState(p) == InAtom then AtomStart else Rejected
  {
    var atoms := Split(p, '.');
    var init, last := atoms[..|atoms| - 1], atoms[|atoms| - 1];
    assert atoms == init + [last];
    AllAtomsSnoc(init, last);
    assert LocalState(p + ['.']) == if AllAtoms(atoms) then AtomStart else Rejected;
  }

  lemma LocalStateSnocOther(p: string, c: char)
    requires c != '.'
    requires var atoms := Split(p, '.');
      Split(p + [c], '.') == atoms[..|atoms| - 1] + [atoms[|atoms| - 1] + [c]]
    ensures LocalState(p + [c]) ==
      if LocalState(p) != Rejected && IsAtomChar(c) then InAtom else Rejected
  {
    var atoms := Split(p, '.');
    var init, last := atoms[..|atoms| - 1], atoms[|atoms| - 1];
    var atoms' := Split(p + [c], '.');
    assert atoms'[..|atoms'| - 1] == init;
    AtomCharsSnoc(last, c);
  }

  lemma DomainStateEmpty()
    ensures DomainState([]) == LabelStart(false)
  {
    assert Split([], '.') == [[]];
  }

  lemma DomainStateSnoc(q: string, c: char)
    ensures DomainState(q + [c]) == Step(DomainState(q), c)
  {
    SplitSnoc(q, '.', c);
    if c == '.' {
      DomainStateSnocDot(q);
    } else {
      DomainStateSnocOther(q, c);
    }
  }

  lemma DomainStateSnocDot(q: string)
    requires Split(q + ['.'], '.') == Split(q, '.') + [[]]
    ensures DomainState(q + ['.']) ==
      if DomainState(q).InLabel? && !DomainState(q).hyphen then LabelStart(true) else Rejected
  {
    var labels := Split(q, '.');
    var init, last := labels[..|labels| - 1], labels[|labels| - 1];
    assert labels == init + [last];
    AllLabelsSnoc(init, last);
    assert DomainState(q + ['.']) == if AllLabels(labels) then LabelStart(true) else Rejected;
  }

  lemma DomainStateSnocOther(q: string, c: char)
    requires c != '.'
    requires var labels := Split(q, '.');
      Split(q + [c], '.') == labels[..|labels| - 1] + [labels[|labels| - 1] + [c]]
    ensures DomainState(q + [c]) == Step(DomainState(q), c)
  {
    var labels := Split(q, '.');
    var init, last := labels[..|labels| - 1], labels[|labels| - 1];
    var labels' := Split(q + [c], '.');
    assert labels'[..|labels'| - 1] == init;
    LabelPrefixSnoc(last, c);
    assert DomainState(q + [c]) ==
      if !AllLabels(init) || !LabelPrefix(last + [c]) then Rejected
      else InLabel(|labels| > 1, c == '-');
  }

  /** Expected unfolded at the position `i` of the first '@' (|s| if none). */
  lemma ExpectedIs(s: string, i: nat)
    requires i <= |s|
    requires i < |s| ==> s[i] == '@'
    requires forall k | 0 <= k < i :: s[k] != '@'
    ensures Expected(s) ==
      if i == |s| then LocalState(s)
      else if IsLocalPart(s[..i]) then DomainState(s[i + 1..])
      else Rejected
  {
    IndexOfIs(s, '@', i);
  }

  /** One character more moves the expected state exactly as Step does. */
  lemma ExpectedSnoc(p: string, c: char)
    ensures Expected(p + [c]) == Step(Expected(p), c)
  {
    var i := IndexOf(p, '@');
    if i < |p| {
      ExpectedSnocInDomain(p, c, i);
    } else if c == '@' {
      ExpectedSnocAt(p);
    } else {
      ExpectedSnocInLocal(p, c);
    }
  }

  /** The first '@' ends the local part and starts an empty domain. */
  lemma ExpectedSnocAt(p: string)
    requires forall k | 0 <= k < |p| :: p[k] != '@'
    ensures Expected(p + ['@']) == Step(Expected(p), '@')
  {
    var s := p + ['@'];
    assert forall k | 0 <= k < |p| :: s[k] == p[k];
    ExpectedIs(p, |p|);
    ExpectedIs(s, |p|);
    assert s[..|p|] == p;
    assert s[|p| + 1..] == [];
    LocalStateIsInAtom(p);
    DomainStateEmpty();
    SeparatorsAreNotAtomChars();
  }

  lemma ExpectedSnocInLocal(p: string, c: char)
    requires c != '@'
    requires forall k | 0 <= k < |p| :: p[k] != '@'
    ensures Expected(p + [c]) == Step(Expected(p), c)
  {
    var s := p + [c];
    assert forall k | 0 <= k < |p| :: s[k] == p[k];
    ExpectedIs(p, |p|);
    ExpectedIs(s, |s|);
    LocalStateStep(p, c);
  }

  lemma ExpectedSnocInDomain(p: string, c: char, i: nat)
    requires i < |p| && p[i] == '@'
    requires forall k | 0 <= k < i :: p[k] != '@'
    ensures Expected(p + [c]) == Step(Expected(p), c)
  {
    var s := p + [c];
    assert forall k | 0 <= k < |p| :: s[k] == p[k];
    ExpectedIs(p, i);
    ExpectedIs(s, i);
    assert s[..i] == p[..i];
    assert s[i + 1..] == p[i + 1..] + [c];
    DomainStateSnoc(p[i + 1..], c);
  }

  lemma {:induction false} ScanIsExpected(s: string)
    ensures Scan(AtomStart, s) == Expected(s)
    decreases |s|
  {
    if s == [] {
    } else {
      var p, c := s[..|s| - 1], s[|s| - 1];
      assert s == p + [c];
      ScanIsExpected(p);
      ScanSnoc(AtomStart, p, c);
      ExpectedSnoc(p, c);
    }
  }

  /** The scanner accepts exactly the language of EMAIL_REGEX. */
  lemma MatchesEmailRegexIff(s: string)
    ensures MatchesEmailRegex(s) <==> IsEmailAddress(s)
  {
    ScanIsExpected(s);
    if Expected(s) == InLabel(true, false) {
      AcceptedIsEmail(s);
    }
    if IsEmailAddress(s) {
      EmailIsAccepted(s);
    }
  }

  lemma AcceptedIsEmail(s: string)
    requires Expected(s) == InLabel(true, false)
    ensures IsEmailAddress(s)
  {
    var i := IndexOf(s, '@');
    assert i < |s|;
    DomainStateIsAccepting(s[i + 1..]);
  }

  lemma EmailIsAccepted(s: string)
    requires IsEmailAddress(s)
    ensures Expected(s) == InLabel(true, false)
  {
    var j :| 0 <= j < |s| && s[j] == '@' && IsLocalPart(s[..j]) && IsDomain(s[j + 1..]);
    LocalPartHasNoAt(s[..j]);
    assert forall k | 0 <= k < j :: s[k] == s[..j][k];
    ExpectedIs(s, j);
    DomainStateIsAccepting(s[j + 1..]);
  }

  lemma DomainStateIsAccepting(q: string)
    ensures DomainState(q) == InLabel(true, false) <==> IsDomain(q)
  {
    var labels := Split(q, '.');
    var init, last := labels[..|labels| - 1], labels[|labels| - 1];
    assert labels == init + [last];
    AllLabelsSnoc(init, last);
  }

  // ---------------------------------------------------------------------
  // Consequences for every accepted address
  // ---------------------------------------------------------------------

  /** Every character of `s` other than `sep` lies in one of the pieces. */
  lemma {:induction false} SplitCovers(s: string, sep: char, j: nat)
    requires j < |s| && s[j] != sep
    ensures exists k, m | 0 <= k < |Split(s, sep)| && 0 <= m < |Split(s, sep)[k]| ::
      Split(s, sep)[k][m] == s[j]
    decreases |s|
  {
    var p, c := s[..|s| - 1], s[|s| - 1];
    assert s == p + [c];
    SplitSnoc(p, sep, c);
    var pieces := Split(p, sep);
    var n := |pieces|;
    if j == |p| {
      assert Split(s, sep)[n - 1][|pieces[n - 1]|] == c;
    } else {
      SplitCovers(p, sep, j);
      var k, m :| 0 <= k < n && 0 <= m < |pieces[k]| && pieces[k][m] == p[j];
      if k == n - 1 && c != sep {
        assert Split(s, sep)[k][m] == pieces[k][m];
      } else {
        assert Split(s, sep)[k] == pieces[k];
      }
    }
  }

  /** Two or more pieces mean at least one separator. */
  lemma {:induction false} SplitManyHasSeparator(s: string, sep: char)
    requires |Split(s, sep)| >= 2
    ensures sep in s
    decreases |s|
  {
    var p, c := s[..|s| - 1], s[|s| - 1];
    assert s == p + [c];
    SplitSnoc(p, sep, c);
    if c != sep {
      SplitManyHasSeparator(p, sep);
    }
  }

  lemma LocalPartHasNoAt(l: string)
    requires IsLocalPart(l)
    ensures forall j | 0 <= j < |l| :: l[j] != '@' && !IsUpper(l[j])
  {
    forall j | 0 <= j < |l| ensures l[j] != '@' && !IsUpper(l[j]) {
      if l[j] != '.' {
        SplitCovers(l, '.', j);
      }
    }
  }

  lemma DomainHasNoAt(d: string)
    requires IsDomain(d)
    ensures forall j | 0 <= j < |d| :: d[j] != '@' && !IsUpper(d[j])
    ensures '.' in d
  {
    SplitManyHasSeparator(d, '.');
    forall j | 0 <= j < |d| ensures d[j] != '@' && !IsUpper(d[j]) {
      if d[j] != '.' {
        SplitCovers(d, '.', j);
      }
    }
  }

  lemma LocalStateEmpty()
    ensures LocalState([]) == AtomStart
  {
    assert Split([], '.') == [[]];
  }

  /** LocalState after one character more; an '@' is never part of an atom. */
  lemma LocalStateStep(p: string, c: char)
    ensures LocalState(p + [c]) == if c == '@' then Rejected else Step(LocalState(p), c)
  {
    SplitSnoc(p, '.', c);
    SeparatorsAreNotAtomChars();
    if c == '.' {
      LocalStateSnocDot(p);
    } else {
      LocalStateSnocOther(p, c);
    }
  }

  /** What a local-part prefix the scanner still accepts looks like. */
  lemma {:induction false} LocalStateShape(p: string)
    requires LocalState(p) != Rejected
    ensures |p| > 0 ==> p[0] != '.'
    ensures LocalState(p) == AtomStart <==> p == [] || p[|p| - 1] == '.'
    ensures forall k | 0 <= k < |p| - 1 :: !(p[k] == '.' && p[k + 1] == '.')
    decreases |p|
  {
    if p == [] {
      LocalStateEmpty();
    } else {
      var p', c := p[..|p| - 1], p[|p| - 1];
      assert p == p' + [c];
      LocalStateStep(p', c);
      SeparatorsAreNotAtomChars();
      LocalStateShape(p');
      assert forall k | 0 <= k < |p'| :: p[k] == p'[k];
    }
  }

  /** The local part of an accepted address is non-empty, neither starts nor
      ends with '.', and holds no two consecutive dots. */
  lemma LocalPartShape(l: string)
    requires IsLocalPart(l)
    ensures |l| > 0 && l[0] != '.' && l[|l| - 1] != '.'
    ensures forall k | 0 <= k < |l| - 1 :: !(l[k] == '.' && l[k + 1] == '.')
  {
    LocalStateIsInAtom(l);
    LocalStateEmpty();
    LocalStateShape(l);
  }

  /** An accepted address holds exactly one '@' and a '.' somewhere after it. */
  lemma EmailHasOneAtAndDotAfter(s: string)
    requires IsEmailAddress(s)
    ensures exists i | 0 <= i < |s| ::
      && s[i] == '@'
      && (forall k | 0 <= k < |s| && s[k] == '@' :: k == i)
      && (exists j | i < j < |s| :: s[j] == '.')
  {
    var i :| 0 <= i < |s| && s[i] == '@' && IsLocalPart(s[..i]) && IsDomain(s[i + 1..]);
    var l, d := s[..i], s[i + 1..];
    LocalPartHasNoAt(l);
    DomainHasNoAt(d);
    assert forall k | 0 <= k < i :: s[k] == l[k];
    assert forall k | i < k < |s| :: s[k] == d[k - i - 1];
    var m :| 0 <= m < |d| && d[m] == '.';
    assert s[i + 1 + m] == '.';
  }

  /** EMAIL_REGEX has only lower-case classes and no case flag. */
  lemma EmailHasNoUpperCase(s: string)
    requires IsEmailAddress(s)
    ensures forall k | 0 <= k < |s| :: !IsUpper(s[k])
  {
    var i :| 0 <= i < |s| && s[i] == '@' && IsLocalPart(s[..i]) && IsDomain(s[i + 1..]);
    var l, d := s[..i], s[i + 1..];
    LocalPartHasNoAt(l);
    DomainHasNoAt(d);
    forall k | 0 <= k < |s| ensures !IsUpper(s[k]) {
      if k < i {
        assert l[k] == s[k];
      } else if k > i {
        assert d[k - i - 1] == s[k];
      }
    }
  }

  // ---------------------------------------------------------------------
  // center
  // ---------------------------------------------------------------------

  /** `out` is spaces everywhere except that it holds `str` from `start` on. */
  predicate CenteredAt(out: string, str: string, start: nat) {
    && start + |str| <= |out|
    && out[start..start + |str|] == str
    && forall k | 0 <= k < |out| && !(start <= k < start + |str|) :: out[k] == ' '
  }

  /** center: rejects an empty string and a field no wider than the string;
      otherwise a field of `len` characters with `str` at (len - |str|) / 2,
      whose right margin is the left one or one more. */
  method Center(str: string, len: int) returns (r: Result<string, Error>)
    ensures str == [] ==> r == Failure(EmptyString)
    ensures str != [] && len <= |str| ==> r == Failure(LengthTooSmall(len, |str|))
    ensures str != [] && len > |str| ==>
      && r.Success?
      && |r.value| == len
      && CenteredAt(r.value, str, (len - |str|) / 2)
      && var start := (len - |str|) / 2;
         start <= len - |str| - start <= start + 1
  {
    if str == [] {
      return Failure(EmptyString);
    }
    if len <= |str| {
      return Failure(LengthTooSmall(len, |str|));
    }
    var sb := new char[len](_ => ' ');
    var start := (len - |str|) / 2;
    var end := start + |str|;
    var i, j := start, 0;
    while i < end
      invariant start <= i <= end <= sb.Length == len
      invariant j == i - start
      invariant forall k | 0 <= k < sb.Length && !(start <= k < i) :: sb[k] == ' '
      invariant forall k | start <= k < i :: sb[k] == str[k - start]
    {
      sb[i] := str[j];
      i, j := i + 1, j + 1;
    }
    r := Success(sb[..]);
  }
}
