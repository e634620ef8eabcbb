/**
 * The access-log line pattern of `parse_line`, matched with `re.match` (anchored at the start):
 *
 *   \b(?P<ip>\d{1,3}\.\d{1,3}\.\d{1,3}\.\d{1,3})\b.*?
 *   \[(?P<dt>\d{2}/\w{3}/\d{4}:\d+:\d{2}:\d{2}\s[\+\-]\d{4})\]
 *   \s"\w+\s(?P<url>.+?)\s
 *
 * `Fits` describes declaratively every way the pattern can match a line; `Preferred` picks the
 * one the backtracking matcher reports (the shortest `.*?` skip, then the shortest `.+?` URL).
 * `MatchLayout` is a direct scanner proved to find exactly the preferred match.
 */
module LinePattern {
  import opened Text
  import opened Wrappers

  /** The three named groups of a match. */
  datatype Groups = Groups(ip: string, dt: string, url: string)

  /**
   * Cut points of one way the pattern can match, as indices into the line: the dots after the
   * first three octets, the end of the address, the `[`, the `:` after the hour digits, the
   * whitespace after the method word, and the whitespace after the URL.
   */
  datatype Layout = Layout(dot1: nat, dot2: nat, dot3: nat, ipEnd: nat,
                           open: nat, hourEnd: nat, methodEnd: nat, urlEnd: nat)

  predicate DigitsIn(line: string, i: nat, j: nat) {
    i <= j <= |line| && forall k :: i <= k < j ==> IsDigit(line[k])
  }

  predicate WordsIn(line: string, i: nat, j: nat) {
    i <= j <= |line| && forall k :: i <= k < j ==> IsWordChar(line[k])
  }

  /** Characters `.` matches: anything but a line feed. */
  predicate NoNewlineIn(line: string, i: nat, j: nat) {
    i <= j <= |line| && forall k :: i <= k < j ==> line[k] != '\n'
  }

  predicate CharAt(line: string, i: nat, c: char) {
    i < |line| && line[i] == c
  }

  predicate SpaceAt(line: string, i: nat) {
    i < |line| && IsSpace(line[i])
  }

  /** `\d{1,3}` on `line[i..j]`. */
  predicate Octet(line: string, i: nat, j: nat) {
    DigitsIn(line, i, j) && 1 <= j - i <= 3
  }

  /**
   * `\b\d{1,3}\.\d{1,3}\.\d{1,3}\.\d{1,3}\b` at the start of the line. The leading `\b` holds
   * whenever the line starts with a digit; the trailing one needs a non-word character or the
   * end of the line after the last octet.
   */
  predicate IpFits(line: string, d1: nat, d2: nat, d3: nat, e: nat) {
    && Octet(line, 0, d1) && CharAt(line, d1, '.')
    && Octet(line, d1 + 1, d2) && CharAt(line, d2, '.')
    && Octet(line, d2 + 1, d3) && CharAt(line, d3, '.')
    && Octet(line, d3 + 1, e) && (e == |line| || !IsWordChar(line[e]))
  }

  /** `\[\d{2}/\w{3}/\d{4}:\d+:\d{2}:\d{2}\s[\+\-]\d{4}\]` with `[` at `s` and the hour ending at `h`. */
  predicate BracketFits(line: string, s: nat, h: nat) {
    && CharAt(line, s, '[') && DigitsIn(line, s + 1, s + 3) && CharAt(line, s + 3, '/')
    && WordsIn(line, s + 4, s + 7) && CharAt(line, s + 7, '/')
    && DigitsIn(line, s + 8, s + 12) && CharAt(line, s + 12, ':')
    && s + 14 <= h && DigitsIn(line, s + 13, h) && CharAt(line, h, ':')
    && DigitsIn(line, h + 1, h + 3) && CharAt(line, h + 3, ':')
    && DigitsIn(line, h + 4, h + 6) && SpaceAt(line, h + 6)
    && (CharAt(line, h + 7, '+') || CharAt(line, h + 7, '-'))
    && DigitsIn(line, h + 8, h + 12) && CharAt(line, h + 12, ']')
  }

  /** `\s"\w+\s.+?\s` after the bracket: method word ending at `m`, URL ending at `q`. */
  predicate RequestFits(line: string, h: nat, m: nat, q: nat) {
    && SpaceAt(line, h + 13) && CharAt(line, h + 14, '\"')
    && h + 16 <= m && WordsIn(line, h + 15, m) && SpaceAt(line, m)
    && m + 2 <= q && NoNewlineIn(line, m + 1, q) && SpaceAt(line, q)
  }

  /** One way the whole pattern matches a prefix of the line. */
  predicate Fits(line: string, l: Layout) {
    && IpFits(line, l.dot1, l.dot2, l.dot3, l.ipEnd)
    && l.ipEnd <= l.open && NoNewlineIn(line, l.ipEnd, l.open)
    && BracketFits(line, l.open, l.hourEnd)
    && RequestFits(line, l.hourEnd, l.methodEnd, l.urlEnd)
  }

  /** The match `re.match` reports: leftmost `[` first, then the shortest URL. */
  ghost predicate Preferred(line: string, l: Layout) {
    && Fits(line, l)
    && forall l' :: Fits(line, l') ==>
         l.open < l'.open || (l.open == l'.open && l.urlEnd <= l'.urlEnd)
  }

  function GroupsOf(line: string, l: Layout): Groups
    requires Fits(line, l)
  {
    Groups(line[..l.ipEnd], line[l.open + 1..l.hourEnd + 12], line[l.methodEnd + 1..l.urlEnd])
  }

  // ---------------------------------------------------------------- the scanner

  /** End of the run of digits starting at `i`. */
  function DigitRunEnd(line: string, i: nat): (j: nat)
    requires i <= |line|
    ensures DigitsIn(line, i, j) && (j == |line| || !IsDigit(line[j]))
    decreases |line| - i
  {
    if i < |line| && IsDigit(line[i]) then DigitRunEnd(line, i + 1) else i
  }

  /** End of the run of word characters starting at `i`. */
  function WordRunEnd(line: string, i: nat): (j: nat)
    requires i <= |line|
    ensures WordsIn(line, i, j) && (j == |line| || !IsWordChar(line[j]))
    decreases |line| - i
  {
    if i < |line| && IsWordChar(line[i]) then WordRunEnd(line, i + 1) else i
  }

  /** The first whitespace at or after `i`, or the end of the line. */
  function NextSpace(line: string, i: nat): (q: nat)
    requires i <= |line|
    ensures i <= q <= |line| && (q < |line| ==> IsSpace(line[q]))
    ensures forall k :: i <= k < q ==> !IsSpace(line[k])
    decreases |line| - i
  {
    if i < |line| && !IsSpace(line[i]) then NextSpace(line, i + 1) else i
  }

  /** A run of digits that stops before a non-digit ends where `DigitRunEnd` says. */
  lemma {:induction false} DigitRunEndAt(line: string, i: nat, j: nat)
    requires DigitsIn(line, i, j) && (j == |line| || !IsDigit(line[j]))
    ensures DigitRunEnd(line, i) == j
    decreases j - i
  {
    if i < j {
      DigitRunEndAt(line, i + 1, j);
    }
  }

  lemma {:induction false} WordRunEndAt(line: string, i: nat, j: nat)
    requires WordsIn(line, i, j) && (j == |line| || !IsWordChar(line[j]))
    ensures WordRunEnd(line, i) == j
    decreases j - i
  {
    if i < j {
      WordRunEndAt(line, i + 1, j);
    }
  }

  /** The octet ending: the dot after it, or for the last one a word boundary. */
  function OctetEnd(line: string, i: nat, last: bool): Option<nat>
    requires i <= |line|
  {
    var j := DigitRunEnd(line, i);
    if 1 <= j - i <= 3 && (if last then j == |line| || !IsWordChar(line[j]) else CharAt(line, j, '.'))
    then Some(j) else None
  }

  /** The address at the start of the line, as its cut points. */
  function MatchIp(line: string): Option<(nat, nat, nat, nat)> {
    match OctetEnd(line, 0, false)
    case None => None
    case Some(d1) =>
      match OctetEnd(line, d1 + 1, false)
      case None => None
      case Some(d2) =>
        match OctetEnd(line, d2 + 1, false)
        case None => None
        case Some(d3) =>
          match OctetEnd(line, d3 + 1, true)
          case None => None
          case Some(e) => Some((d1, d2, d3, e))
  }

  /** The fixed-width part of the bracket, `[dd/www/dddd:`, at `s`. */
  predicate BracketHead(line: string, s: nat) {
    && CharAt(line, s, '[') && DigitsIn(line, s + 1, s + 3) && CharAt(line, s + 3, '/')
    && WordsIn(line, s + 4, s + 7) && CharAt(line, s + 7, '/')
    && DigitsIn(line, s + 8, s + 12) && CharAt(line, s + 12, ':')
  }

  /** The part after the hour, `:dd:dd\s[+-]dddd]\s"`, at `h`. */
  predicate BracketTail(line: string, h: nat) {
    && CharAt(line, h, ':') && DigitsIn(line, h + 1, h + 3) && CharAt(line, h + 3, ':')
    && DigitsIn(line, h + 4, h + 6) && SpaceAt(line, h + 6)
    && (CharAt(line, h + 7, '+') || CharAt(line, h + 7, '-'))
    && DigitsIn(line, h + 8, h + 12) && CharAt(line, h + 12, ']')
    && SpaceAt(line, h + 13) && CharAt(line, h + 14, '\"')
  }

  /** The rest of the pattern tried with the `[` at `s`: hour end, method end, URL end. */
  function MatchBracket(line: string, s: nat): Option<(nat, nat, nat)> {
    if !BracketHead(line, s) then None
    else
      var h := DigitRunEnd(line, s + 13);
      if !(s + 14 <= h && BracketTail(line, h)) then None
      else
        var m := WordRunEnd(line, h + 15);
        if !(h + 16 <= m && SpaceAt(line, m) && m + 1 < |line| && line[m + 1] != '\n') then None
        else
          var q := NextSpace(line, m + 2);
          if q == |line| then None else Some((h, m, q))
  }

  /** The lazy `.*?`: try the bracket at `s`, then at `s + 1`, never skipping a line feed. */
  function Search(line: string, s: nat): Option<(nat, (nat, nat, nat))>
    requires s <= |line|
    decreases |line| - s
  {
    if s == |line| then None
    else match MatchBracket(line, s)
      case Some(t) => Some((s, t))
      case None => if line[s] == '\n' then None else Search(line, s + 1)
  }

  /** The scanner: the cut points of the match, or `None` when the line does not match. */
  function MatchLayout(line: string): Option<Layout> {
    match MatchIp(line)
    case None => None
    case Some((d1, d2, d3, e)) =>
      match Search(line, e)
      case None => None
      case Some((s, (h, m, q))) => Some(Layout(d1, d2, d3, e, s, h, m, q))
  }

  // ---------------------------------------------------------------- the scanner agrees with the pattern

  lemma OctetEndAt(line: string, i: nat, j: nat, last: bool)
    requires i <= |line| && Octet(line, i, j)
    requires if last then j == |line| || !IsWordChar(line[j]) else CharAt(line, j, '.')
    ensures OctetEnd(line, i, last) == Some(j)
  {
    DigitRunEndAt(line, i, j);
  }

  /** The scanner finds an address exactly when one fits, and then the one that fits. */
  lemma MatchIpExact(line: string, d1: nat, d2: nat, d3: nat, e: nat)
    ensures MatchIp(line) == Some((d1, d2, d3, e)) <==> IpFits(line, d1, d2, d3, e)
  {
    if IpFits(line, d1, d2, d3, e) {
      OctetEndAt(line, 0, d1, false);
      OctetEndAt(line, d1 + 1, d2, false);
      OctetEndAt(line, d2 + 1, d3, false);
      OctetEndAt(line, d3 + 1, e, true);
    }
  }

  /** A matched address is digits and dots only. */
  lemma IpChars(line: string, d1: nat, d2: nat, d3: nat, e: nat)
    requires IpFits(line, d1, d2, d3, e)
    ensures e <= |line| && forall k :: 0 <= k < e ==> IsDigit(line[k]) || line[k] == '.'
  {
    forall k | 0 <= k < e ensures IsDigit(line[k]) || line[k] == '.' {
      if k < d1 {
        assert Octet(line, 0, d1);
      } else if d1 < k < d2 {
        assert Octet(line, d1 + 1, d2);
      } else if d2 < k < d3 {
        assert Octet(line, d2 + 1, d3);
      } else if d3 < k {
        assert Octet(line, d3 + 1, e);
      }
    }
  }

  /** What the bracket scanner finds fits, and its URL stops at the first whitespace. */
  lemma MatchBracketSound(line: string, s: nat)
    requires MatchBracket(line, s).Some?
    ensures var (h, m, q) := MatchBracket(line, s).value;
      && BracketFits(line, s, h) && RequestFits(line, h, m, q)
      && forall k :: m + 2 <= k < q ==> !IsSpace(line[k])
  {
  }

  /** Whenever the bracket and request fit at `s`, the scanner finds the same hour and method and a URL no longer. */
  lemma MatchBracketComplete(line: string, s: nat, h: nat, m: nat, q: nat)
    requires BracketFits(line, s, h) && RequestFits(line, h, m, q)
    ensures MatchBracket(line, s).Some?
    ensures var (h', m', q') := MatchBracket(line, s).value; h' == h && m' == m && q' <= q
  {
    DigitRunEndAt(line, s + 13, h);
    WordRunEndAt(line, h + 15, m);
  }

  /** `Search` stops at the first position where the bracket matches, without crossing a line feed. */
  lemma SearchSound(line: string, s: nat)
    requires s <= |line| && Search(line, s).Some?
    ensures var (o, t) := Search(line, s).value;
      && s <= o && NoNewlineIn(line, s, o) && MatchBracket(line, o) == Some(t)
      && forall o' :: s <= o' < o ==> MatchBracket(line, o').None?
  {
    SearchFound(line, s);
    SearchFirst(line, s);
  }

  lemma {:induction false} SearchFound(line: string, s: nat)
    requires s <= |line| && Search(line, s).Some?
    ensures var (o, t) := Search(line, s).value;
      s <= o && NoNewlineIn(line, s, o) && MatchBracket(line, o) == Some(t)
    decreases |line| - s
  {
    if MatchBracket(line, s).None? {
      assert line[s] != '\n' && Search(line, s) == Search(line, s + 1);
      SearchFound(line, s + 1);
    }
  }

  lemma {:induction false} SearchFirst(line: string, s: nat)
    requires s <= |line| && Search(line, s).Some?
    ensures forall o' :: s <= o' < Search(line, s).value.0 ==> MatchBracket(line, o').None?
    decreases |line| - s
  {
    if MatchBracket(line, s).None? {
      assert Search(line, s) == Search(line, s + 1);
      SearchFirst(line, s + 1);
    }
  }

  /** If the bracket matches at some `o` reachable without a line feed, `Search` finds a position no later. */
  lemma {:induction false} SearchComplete(line: string, s: nat, o: nat)
    requires s <= o && NoNewlineIn(line, s, o) && MatchBracket(line, o).Some?
    ensures Search(line, s).Some? && Search(line, s).value.0 <= o
    decreases o - s
  {
    if s < o && MatchBracket(line, s).None? {
      SearchComplete(line, s + 1, o);
    }
  }

  /** The scanner's result is a match, and it is the preferred one. */
  lemma MatchLayoutSound(line: string)
    requires MatchLayout(line).Some?
    ensures Preferred(line, MatchLayout(line).value)
  {
    MatchLayoutFits(line);
    forall l' | Fits(line, l')
      ensures MatchLayout(line).value.open < l'.open
              || (MatchLayout(line).value.open == l'.open && MatchLayout(line).value.urlEnd <= l'.urlEnd)
    {
      MatchLayoutFirst(line, l');
    }
  }

  lemma MatchLayoutFits(line: string)
    requires MatchLayout(line).Some?
    ensures Fits(line, MatchLayout(line).value)
  {
    var l := MatchLayout(line).value;
    MatchIpExact(line, l.dot1, l.dot2, l.dot3, l.ipEnd);
    SearchSound(line, l.ipEnd);
    MatchBracketSound(line, l.open);
  }

  /** No other match starts its bracket earlier, or at the same place with a shorter URL. */
  lemma MatchLayoutFirst(line: string, l': Layout)
    requires MatchLayout(line).Some? && Fits(line, l')
    ensures var l := MatchLayout(line).value;
      l.open < l'.open || (l.open == l'.open && l.urlEnd <= l'.urlEnd)
  {
    var l := MatchLayout(line).value;
    MatchIpExact(line, l.dot1, l.dot2, l.dot3, l.ipEnd);
    MatchIpExact(line, l'.dot1, l'.dot2, l'.dot3, l'.ipEnd);
    SearchSound(line, l.ipEnd);
    MatchBracketComplete(line, l'.open, l'.hourEnd, l'.methodEnd, l'.urlEnd);
  }

  /** When the pattern fits the line in some way, the scanner finds a match. */
  lemma MatchLayoutComplete(line: string, l: Layout)
    requires Fits(line, l)
    ensures MatchLayout(line).Some?
  {
    MatchIpExact(line, l.dot1, l.dot2, l.dot3, l.ipEnd);
    MatchBracketComplete(line, l.open, l.hourEnd, l.methodEnd, l.urlEnd);
    SearchComplete(line, l.ipEnd, l.open);
  }

  /** There is at most one preferred match, and the scanner returns it. */
  lemma PreferredIsScanned(line: string, l: Layout)
    requires Preferred(line, l)
    ensures MatchLayout(line) == Some(l)
  {
    MatchLayoutComplete(line, l);
    var l0 := MatchLayout(line).value;
    MatchLayoutSound(line);
    assert Fits(line, l0) && Fits(line, l);
    assert l0.open == l.open && l0.urlEnd == l.urlEnd;
    SameEndsSameLayout(line, l, l0);
  }

  /** Two matches with the same bracket position and URL end agree on every cut point. */
  lemma SameEndsSameLayout(line: string, l: Layout, l0: Layout)
    requires Fits(line, l) && Fits(line, l0) && l0.open == l.open && l0.urlEnd == l.urlEnd
    ensures l == l0
  {
    MatchIpExact(line, l.dot1, l.dot2, l.dot3, l.ipEnd);
    MatchIpExact(line, l0.dot1, l0.dot2, l0.dot3, l0.ipEnd);
    DigitRunEndAt(line, l.open + 13, l.hourEnd);
    DigitRunEndAt(line, l.open + 13, l0.hourEnd);
    WordRunEndAt(line, l.hourEnd + 15, l.methodEnd);
    WordRunEndAt(line, l.hourEnd + 15, l0.methodEnd);
  }

  // ---------------------------------------------------------------- parse_line

  const ErrorPrefix := "An error occurred while parsing the line:\n"

  /** `parse_line`: the groups of the match, or the `ValueError` message naming the line. */
  function ParseLine(line: string): (r: Result<Groups, string>)
    ensures r.Failure? ==> r.error == ErrorPrefix + line
  {
    match MatchLayout(line)
    case None => Failure(ErrorPrefix + line)
    case Some(l) =>
      MatchLayoutSound(line);
      Success(GroupsOf(line, l))
  }

  /** `parse_line` succeeds exactly on the lines the pattern matches, with the preferred match's groups. */
  lemma ParseLineExact(line: string, g: Groups)
    ensures ParseLine(line) == Success(g) <==> exists l :: Preferred(line, l) && GroupsOf(line, l) == g
    ensures ParseLine(line).Failure? <==> forall l :: !Fits(line, l)
  {
    ParseLineGroups(line, g);
    ParseLineFails(line);
  }

  lemma ParseLineGroups(line: string, g: Groups)
    ensures ParseLine(line) == Success(g) <==> exists l :: Preferred(line, l) && GroupsOf(line, l) == g
  {
    if ParseLine(line) == Success(g) {
      var l := ParsedLayout(line);
    }
    if exists l :: Preferred(line, l) && GroupsOf(line, l) == g {
      PreferredParses(line, g);
    }
  }

  lemma PreferredParses(line: string, g: Groups)
    requires exists l :: Preferred(line, l) && GroupsOf(line, l) == g
    ensures ParseLine(line) == Success(g)
  {
    var l :| Preferred(line, l) && GroupsOf(line, l) == g;
    PreferredIsScanned(line, l);
  }

  /** A successful parse reports the groups of the preferred match. */
  lemma ParsedLayout(line: string) returns (l: Layout)
    requires ParseLine(line).Success?
    ensures Preferred(line, l) && ParseLine(line).value == GroupsOf(line, l)
  {
    l := MatchLayout(line).value;
    MatchLayoutSound(line);
  }

  lemma ParseLineFails(line: string)
    ensures ParseLine(line).Failure? <==> forall l :: !Fits(line, l)
  {
    if ParseLine(line).Success? {
      MatchLayoutSound(line);
      assert Fits(line, MatchLayout(line).value);
    }
    if exists l :: Fits(line, l) {
      var l :| Fits(line, l);
      MatchLayoutComplete(line, l);
    }
  }
}
