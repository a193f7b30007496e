/** OBJECT_ADDRESS_PATTERN, /#<(.*)(:0x[0-9]+.*)>/i, as a deterministic split.
    Group 1 is the object's name, group 2 its address-and-details part. Under /i only
    the letter x has a case; Ruby's `.` matches anything but a newline. */
module AddressPattern {
  import opened Wrappers
  import opened RubyText

  /** The pattern matches s[q..g+1] with group 1 = s[q+2..e] and group 2 = s[e..g]:
      "#<" at q, ":0", x or X and a digit at e, the closing ">" at g, and no newline
      anywhere from the name to the closing ">". ("[0-9]+.*" is a digit followed by
      anything without a newline.) */
  ghost predicate IsMatch(s: string, q: int, e: int, g: int) {
    0 <= q && q + 2 <= e && e + 4 <= g < |s|
    && s[q] == '#' && s[q + 1] == '<'
    && SignatureAt(s, e)
    && s[g] == '>'
    && forall i :: q + 2 <= i < g ==> s[i] != '\n'
  }

  /** ":0x" or ":0X" followed by a digit starts at e. */
  predicate SignatureAt(s: string, e: int) {
    0 <= e && e + 3 < |s|
    && s[e] == ':' && s[e + 1] == '0' && (s[e + 2] == 'x' || s[e + 2] == 'X')
    && IsDigit(s[e + 3])
  }

  /** The order in which Ruby's backtracking tries matches: the leftmost start first,
      then the longest group 1 (greedy), then the longest group 2 (greedy). */
  ghost predicate TriedFirst(q: int, e: int, g: int, q': int, e': int, g': int) {
    q < q' || (q == q' && (e > e' || (e == e' && g >= g')))
  }

  /** The match Ruby reports: the name and the detail, and where the match starts. */
  datatype Signature = Signature(start: nat, name: string, detail: string)

  /** Index of the first newline at or after i, or |s| if there is none. */
  function LineEnd(s: string, i: nat): (r: nat)
    requires i <= |s|
    ensures i <= r <= |s|
    ensures r < |s| ==> s[r] == '\n'
    decreases |s| - i
  {
    if i == |s| || s[i] == '\n' then i else LineEnd(s, i + 1)
  }

  /** No newline comes before LineEnd. */
  lemma {:induction false} LineEndFirst(s: string, i: nat)
    requires i <= |s|
    ensures forall j :: i <= j < LineEnd(s, i) ==> s[j] != '\n'
    decreases |s| - i
  {
    if i < |s| && s[i] != '\n' {
      LineEndFirst(s, i + 1);
    }
  }

  /** The last ">" in s[lo..hi], if any. */
  function LastClose(s: string, lo: nat, hi: nat): (r: Option<nat>)
    requires lo <= hi <= |s|
    ensures r.Some? ==> lo <= r.value < hi && s[r.value] == '>'
    decreases hi - lo
  {
    if lo == hi then None
    else if s[hi - 1] == '>' then Some(hi - 1)
    else LastClose(s, lo, hi - 1)
  }

  /** LastClose finds the last ">" of the range, and None means there is none. */
  lemma {:induction false} LastCloseIsLast(s: string, lo: nat, hi: nat)
    requires lo <= hi <= |s|
    ensures var r := LastClose(s, lo, hi);
            (r.Some? ==> forall j :: r.value < j < hi ==> s[j] != '>')
            && (r.None? ==> forall j :: lo <= j < hi ==> s[j] != '>')
    decreases hi - lo
  {
    if lo < hi && s[hi - 1] != '>' {
      LastCloseIsLast(s, lo, hi - 1);
    }
  }

  /** The last position in [lo, hi) where SignatureAt holds, if any. */
  function LastSignature(s: string, lo: nat, hi: int): (r: Option<nat>)
    ensures r.Some? ==> lo <= r.value < hi && SignatureAt(s, r.value)
    decreases hi - lo
  {
    if hi <= lo then None
    else if SignatureAt(s, hi - 1) then Some(hi - 1)
    else LastSignature(s, lo, hi - 1)
  }

  /** LastSignature finds the last signature start of the range, and None means there
      is none. */
  lemma {:induction false} LastSignatureIsLast(s: string, lo: nat, hi: int)
    ensures var r := LastSignature(s, lo, hi);
            (r.Some? ==> forall j :: r.value < j < hi ==> !SignatureAt(s, j))
            && (r.None? ==> forall j :: lo <= j < hi ==> !SignatureAt(s, j))
    decreases hi - lo
  {
    if lo < hi && !SignatureAt(s, hi - 1) {
      LastSignatureIsLast(s, lo, hi - 1);
    }
  }

  datatype Bounds = Bounds(e: nat, g: nat)

  /** The match Ruby's backtracking finds when it starts at q, if there is one:
      group 2 runs to the last ">" before the end of the line, and group 1 is as long
      as that leaves room for. */
  function MatchAt(s: string, q: nat): (r: Option<Bounds>)
    ensures r.Some? ==> q + 2 <= r.value.e <= r.value.g < |s|
  {
    if q + 2 > |s| || s[q] != '#' || s[q + 1] != '<' then None
    else
      var lineEnd := LineEnd(s, q + 2);
      match LastClose(s, q + 2, lineEnd)
      case None => None
      case Some(g) =>
        match LastSignature(s, q + 2, g - 3)
        case None => None
        case Some(e) => Some(Bounds(e, g))
  }

  /** MatchAt finds a match at q exactly when there is one, and the one it finds is
      tried before every other match at q. */
  lemma MatchAtCorrect(s: string, q: nat)
    ensures var r := MatchAt(s, q);
      (r.Some? ==> IsMatch(s, q, r.value.e, r.value.g)
                   && forall e', g' :: IsMatch(s, q, e', g') ==> TriedFirst(q, r.value.e, r.value.g, q, e', g'))
      && (r.None? ==> forall e', g' :: !IsMatch(s, q, e', g'))
  {
    if q + 2 <= |s| && s[q] == '#' && s[q + 1] == '<' {
      var lineEnd := LineEnd(s, q + 2);
      LineEndFirst(s, q + 2);
      LastCloseIsLast(s, q + 2, lineEnd);
      match LastClose(s, q + 2, lineEnd)
      case None =>
      case Some(g) =>
        LastSignatureIsLast(s, q + 2, g - 3);
    }
  }

  /** The first start at or after q where the pattern matches, with its match. */
  function SearchFrom(s: string, q: nat): (r: Option<(nat, Bounds)>)
    ensures r.Some? ==> q <= r.value.0 && r.value.0 + 2 <= r.value.1.e <= r.value.1.g < |s|
    decreases |s| - q, 1
  {
    if q >= |s| then None else TryAt(s, q)
  }

  /** Try the pattern at q; when it fails there, go on searching from q + 1. */
  function TryAt(s: string, q: nat): (r: Option<(nat, Bounds)>)
    requires q < |s|
    ensures r.Some? ==> q <= r.value.0 && r.value.0 + 2 <= r.value.1.e <= r.value.1.g < |s|
    decreases |s| - q, 0
  {
    match MatchAt(s, q)
    case Some(b) => Some((q, b))
    case None => SearchFrom(s, q + 1)
  }

  /** SearchFrom returns the match tried first among all matches starting at q or later,
      and None exactly when there is no such match. */
  lemma {:induction false} SearchFromCorrect(s: string, q: nat)
    ensures var r := SearchFrom(s, q);
      (r.Some? ==> q <= r.value.0 && IsMatch(s, r.value.0, r.value.1.e, r.value.1.g)
                   && forall q', e', g' :: q <= q' && IsMatch(s, q', e', g') ==>
                        TriedFirst(r.value.0, r.value.1.e, r.value.1.g, q', e', g'))
      && (r.None? ==> forall q', e', g' :: q <= q' ==> !IsMatch(s, q', e', g'))
    decreases |s| - q
  {
    if q < |s| {
      MatchAtCorrect(s, q);
      if MatchAt(s, q).None? {
        SearchFromCorrect(s, q + 1);
      }
    }
  }

  /** `text.match(OBJECT_ADDRESS_PATTERN)`: the match Ruby reports, or None when
      the text does not match. SplitCorrect says what it computes. */
  function Split(s: string): (r: Option<Signature>)
    ensures r.Some? ==> r.value.start + |r.value.name| + |r.value.detail| + 3 <= |s|
  {
    match SearchFrom(s, 0)
    case None => None
    case Some((q, b)) => Some(Signature(q, s[q + 2..b.e], s[b.e..b.g]))
  }

  /** Split reports a match of the pattern, with the name and detail read off the
      text. */
  lemma SplitMatches(s: string)
    requires Split(s).Some?
    ensures var m := Split(s).value;
            var e := m.start + 2 + |m.name|;
            var g := e + |m.detail|;
            IsMatch(s, m.start, e, g) && m.name == s[m.start + 2..e] && m.detail == s[e..g]
  {
    SearchFromCorrect(s, 0);
    var (q, b) := SearchFrom(s, 0).value;
    assert s[q + 2..b.e] == s[q + 2..q + 2 + |s[q + 2..b.e]|];
  }

  /** The match Split reports is the one Ruby's backtracking tries before every other,
      and Split reports None exactly when the pattern matches nowhere in the text. */
  lemma SplitCorrect(s: string)
    ensures var r := Split(s);
      r.Some? ==>
        var e := r.value.start + 2 + |r.value.name|;
        var g := e + |r.value.detail|;
        IsMatch(s, r.value.start, e, g)
        && r.value.name == s[r.value.start + 2..e] && r.value.detail == s[e..g]
        && forall q', e', g' :: IsMatch(s, q', e', g') ==> TriedFirst(r.value.start, e, g, q', e', g')
    ensures Split(s).None? <==> forall q', e', g' :: !IsMatch(s, q', e', g')
  {
    SearchFromCorrect(s, 0);
    if Split(s).Some? {
      SplitMatches(s);
    }
  }

  /** The matched part of the text is exactly "#<", the name, the detail and ">". */
  lemma SplitSpellsMatch(s: string)
    requires Split(s).Some?
    ensures var m := Split(s).value;
            m.start + |m.name| + |m.detail| + 3 <= |s|
            && s[m.start..m.start + |m.name| + |m.detail| + 3] == "#<" + m.name + m.detail + ">"
  {
    SplitMatches(s);
    var m := Split(s).value;
    var q, e, g := m.start, m.start + 2 + |m.name|, m.start + 2 + |m.name| + |m.detail|;
    assert IsMatch(s, q, e, g);
    MatchSpells(s, q, e, g);
  }

  /** A match at q, e, g covers s[q..g + 1], which reads "#<", group 1, group 2, ">". */
  lemma MatchSpells(s: string, q: nat, e: nat, g: nat)
    requires q + 2 <= e <= g < |s| && s[q] == '#' && s[q + 1] == '<' && s[g] == '>'
    ensures s[q..g + 1] == "#<" + s[q + 2..e] + s[e..g] + ">"
  {
    assert s[q..q + 2] == "#<";
    assert s[g..g + 1] == ">";
    SliceSplit(s, q, q + 2, g + 1);
    SliceSplit(s, q + 2, e, g + 1);
    SliceSplit(s, e, g, g + 1);
  }

  /** A match that Ruby's backtracking would try before every other one is the one
      Split reports. */
  lemma SplitIsFirstTried(s: string, q: nat, e: nat, g: nat)
    requires IsMatch(s, q, e, g)
    requires forall q', e', g' :: IsMatch(s, q', e', g') ==> TriedFirst(q, e, g, q', e', g')
    ensures Split(s) == Some(Signature(q, s[q + 2..e], s[e..g]))
  {
    SplitBeforeAny(s, q, e, g);
    SplitMatches(s);
    var m := Split(s).value;
    var e1 := m.start + 2 + |m.name|;
    var g1 := e1 + |m.detail|;
    assert TriedFirst(q, e, g, m.start, e1, g1);
  }

  /** Whenever the pattern matches somewhere, Split reports a match, and one that is
      tried no later than that one. */
  lemma SplitBeforeAny(s: string, q: nat, e: nat, g: nat)
    requires IsMatch(s, q, e, g)
    ensures Split(s).Some?
    ensures var m := Split(s).value;
            TriedFirst(m.start, m.start + 2 + |m.name|, m.start + 2 + |m.name| + |m.detail|, q, e, g)
  {
    SearchFromCorrect(s, 0);
    var (q1, b) := SearchFrom(s, 0).value;
    assert |s[q1 + 2..b.e]| == b.e - q1 - 2;
  }

  lemma SliceSplit(s: string, i: nat, j: nat, k: nat)
    requires i <= j <= k <= |s|
    ensures s[i..k] == s[i..j] + s[j..k]
  {
  }
}
