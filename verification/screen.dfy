/** The matching logic of `screen_exists` in src/mcserver/screen.py: the text that
    `screen -list` prints is scanned with `re.finditer` for the pattern
    `(?P<pid>[0-9]+)\.(?P<name>[a-z]+)`, and the session exists when some match's
    name group equals the queried name. The listing is an input here. */
module Screen {
  import opened Results
  import Numerals

  predicate IsLower(c: char) {
    'a' <= c <= 'z'
  }

  /** The two character classes of the pattern: `[0-9]` and `[a-z]`. */
  datatype CharClass = Digits | Lowers

  predicate InClass(c: char, cls: CharClass) {
    match cls
    case Digits => Numerals.IsDigit(c)
    case Lowers => IsLower(c)
  }

  /** End of the longest run of `cls` characters starting at `i`: where a greedy
      `[0-9]+` or `[a-z]+` that starts at `i` stops. */
  function RunEnd(s: string, i: nat, cls: CharClass): (j: nat)
    requires i <= |s|
    ensures i <= j <= |s|
    ensures forall k :: i <= k < j ==> InClass(s[k], cls)
    ensures j == |s| || !InClass(s[j], cls)
    decreases |s| - i
  {
    if i < |s| && InClass(s[i], cls) then RunEnd(s, i + 1, cls) else i
  }

  /** A match of the pattern: `s[start..dot]` is the pid group, `s[dot]` the dot
      and `s[dot + 1..stop]` the name group. */
  datatype Match = Match(start: nat, dot: nat, stop: nat)

  /** The match the pattern finds when tried at position `p`, if any: the pid
      group is the digit run starting at `p`, followed by a literal dot, and the
      name group is the whole lowercase run after the dot. A greedy `[0-9]+` can
      only be followed by `\.` at the end of its digit run, so backtracking never
      yields another match. */
  function TryPattern(s: string, p: nat): (r: Option<Match>)
    requires p <= |s|
    ensures r.Some? ==>
      && r.value.start == p < r.value.dot < r.value.dot + 1 < r.value.stop <= |s|
      && r.value.dot == RunEnd(s, p, Digits) && s[r.value.dot] == '.'
      && r.value.stop == RunEnd(s, r.value.dot + 1, Lowers)
    ensures r.None? <==> !(p < RunEnd(s, p, Digits) && TokenDot(s, RunEnd(s, p, Digits)))
  {
    var dot := RunEnd(s, p, Digits);
    if p < dot && dot + 1 < |s| && s[dot] == '.' && IsLower(s[dot + 1]) then
      Some(Match(p, dot, RunEnd(s, dot + 1, Lowers)))
    else
      None
  }

  /** The name groups of `SCREEN_PATTERN.finditer(s[p..])`, in order: matches are
      searched left to right and the search resumes where the last match ended. */
  function Names(s: string, p: nat): (names: seq<string>)
    requires p <= |s|
    ensures forall i :: 0 <= i < |names| ==> |names[i]| > 0
    ensures forall i, k :: 0 <= i < |names| && 0 <= k < |names[i]| ==> IsLower(names[i][k])
    decreases |s| - p
  {
    if p == |s| then []
    else
      match TryPattern(s, p)
      case Some(m) =>
        assert forall k :: m.dot + 1 <= k < m.stop ==> InClass(s[k], Lowers);
        [s[m.dot + 1..m.stop]] + Names(s, m.stop)
      case None => Names(s, p + 1)
  }

  /** A dot that a session token hangs on: a digit right before it and a
      lowercase letter right after it. */
  predicate TokenDot(s: string, d: int) {
    1 <= d && d + 1 < |s| && s[d] == '.' && Numerals.IsDigit(s[d - 1]) && IsLower(s[d + 1])
  }

  /** The name of the token at a dot: the longest lowercase run after it. */
  function TokenName(s: string, d: int): string
    requires TokenDot(s, d)
  {
    s[d + 1..RunEnd(s, d + 1, Lowers)]
  }

  /** Where the pattern fails to match, the next position holds no token dot. */
  lemma NoTokenAfterFailedStart(s: string, p: nat)
    requires p < |s| && TryPattern(s, p).None?
    ensures !TokenDot(s, p + 1)
  {
  }

  /** Inside a match, and at the position right after it, no token dot sits
      except the match's own. */
  lemma NoTokenInsideMatch(s: string, p: nat, d: int)
    requires p < |s| && TryPattern(s, p).Some?
    requires p < d <= TryPattern(s, p).value.stop && d != TryPattern(s, p).value.dot
    ensures !TokenDot(s, d)
  {
    var m := TryPattern(s, p).value;
    if d < m.dot {
      assert InClass(s[d], Digits);
    } else if d < m.stop {
      assert InClass(s[d], Lowers);
    } else {
      assert InClass(s[d - 1], Lowers);
    }
  }

  /** Some token whose dot lies after position `p` carries the name `name`. */
  ghost predicate TokenAfter(s: string, p: int, name: string) {
    exists d :: p < d && TokenDot(s, d) && TokenName(s, d) == name
  }

  /** Over a match, the tokens after `p` are the match's own and those after it. */
  lemma TokensOverMatch(s: string, p: nat, name: string)
    requires p < |s| && TryPattern(s, p).Some?
    ensures var m := TryPattern(s, p).value;
      TokenAfter(s, p, name) <==> name == s[m.dot + 1..m.stop] || TokenAfter(s, m.stop, name)
  {
    var m := TryPattern(s, p).value;
    var here := s[m.dot + 1..m.stop];
    assert TokenDot(s, m.dot) && TokenName(s, m.dot) == here;
    if TokenAfter(s, p, name) {
      var d :| p < d && TokenDot(s, d) && TokenName(s, d) == name;
      if d <= m.stop && d != m.dot {
        NoTokenInsideMatch(s, p, d);
      }
    }
  }

  /** Where the scan fails, the tokens after `p` are those after `p + 1`. */
  lemma TokensOverFailure(s: string, p: nat, name: string)
    requires p < |s| && TryPattern(s, p).None?
    ensures TokenAfter(s, p, name) <==> TokenAfter(s, p + 1, name)
  {
    NoTokenAfterFailedStart(s, p);
  }

  /** The scan's step over a match, given what the scan finds after it. */
  lemma NamesOverMatch(s: string, p: nat, name: string)
    requires p < |s| && TryPattern(s, p).Some?
    requires name in Names(s, TryPattern(s, p).value.stop) <==> TokenAfter(s, TryPattern(s, p).value.stop, name)
    ensures name in Names(s, p) <==> TokenAfter(s, p, name)
  {
    var m := TryPattern(s, p).value;
    TokensOverMatch(s, p, name);
    assert Names(s, p) == [s[m.dot + 1..m.stop]] + Names(s, m.stop);
  }

  /** The scan's step over a failed attempt, given what the scan finds after it. */
  lemma NamesOverFailure(s: string, p: nat, name: string)
    requires p < |s| && TryPattern(s, p).None?
    requires name in Names(s, p + 1) <==> TokenAfter(s, p + 1, name)
    ensures name in Names(s, p) <==> TokenAfter(s, p, name)
  {
    TokensOverFailure(s, p, name);
    assert Names(s, p) == Names(s, p + 1);
  }

  /** The scan finds exactly the tokens whose dot lies after the starting point:
      no token is skipped by the non-overlapping search and none is invented. */
  lemma {:induction false} NamesAreTokens(s: string, p: nat, name: string)
    requires p <= |s|
    ensures name in Names(s, p) <==> TokenAfter(s, p, name)
    decreases |s| - p
  {
    if p < |s| {
      match TryPattern(s, p)
      case Some(m) =>
        NamesAreTokens(s, m.stop, name);
        NamesOverMatch(s, p, name);
      case None =>
        NamesAreTokens(s, p + 1, name);
        NamesOverFailure(s, p, name);
    }
  }

  /** `screen_exists(name)` on the listing `listing`: some `<digits>.<letters>`
      token of the listing carries exactly that name. */
  function ScreenExists(listing: string, name: string): (r: bool)
    ensures r <==> exists d :: TokenDot(listing, d) && TokenName(listing, d) == name
  {
    NamesAreTokens(listing, 0, name);
    assert TokenAfter(listing, 0, name) <==> exists d :: TokenDot(listing, d) && TokenName(listing, d) == name;
    name in Names(listing, 0)
  }

  /** Only non-empty all-lowercase names can ever be reported. */
  lemma OnlyLowercaseNamesExist(listing: string, name: string)
    requires ScreenExists(listing, name)
    ensures |name| > 0 && forall i :: 0 <= i < |name| ==> IsLower(name[i])
  {
    var d :| TokenDot(listing, d) && TokenName(listing, d) == name;
    assert InClass(listing[d + 1], Lowers);
    forall i | 0 <= i < |name|
      ensures IsLower(name[i])
    {
      assert name[i] == listing[d + 1 + i];
      assert InClass(listing[d + 1 + i], Lowers);
    }
  }

  /** A run that is followed by a character outside its class ends right there. */
  lemma RunEndAt(s: string, i: nat, j: nat, cls: CharClass)
    requires i <= j <= |s|
    requires forall k :: i <= k < j ==> InClass(s[k], cls)
    requires j == |s| || !InClass(s[j], cls)
    ensures RunEnd(s, i, cls) == j
  {
  }

  /** A listing in which no digit-dot-letter token occurs reports no session. */
  lemma NoTokenNoSession(listing: string, name: string)
    requires forall d :: !TokenDot(listing, d)
    ensures !ScreenExists(listing, name)
  {
  }

  /** A session name that never occurs right after a digit and a dot is not
      counted, wherever else it occurs in the listing: a bare name without a
      `<digits>.` prefix is never a session. */
  lemma BareNameNotCounted(listing: string, name: string)
    requires forall d :: 1 <= d && d + |name| < |listing| && listing[d] == '.' && Numerals.IsDigit(listing[d - 1]) ==>
      listing[d + 1..d + 1 + |name|] != name
    ensures !ScreenExists(listing, name)
  {
  }

  /** The name group is the whole lowercase run after the dot, cut at the first
      other character: `4242.minecraft2` reports the session `minecraft`. */
  lemma NameStopsAtNonLetter()
    ensures ScreenExists("4242.minecraft2", "minecraft")
  {
    var s := "4242.minecraft2";
    assert TokenDot(s, 4);
    RunEndAt(s, 5, 14, Lowers);
    assert TokenName(s, 4) == "minecraft";
  }

  /** A longer lowercase run is not a match for a shorter name:
      `4242.minecraftx` does not report `minecraft`. */
  lemma NameMustMatchWholeRun()
    ensures !ScreenExists("4242.minecraftx", "minecraft")
  {
    var s := "4242.minecraftx";
    RunEndAt(s, 5, 15, Lowers);
    assert s == "4242" + "." + "minecraftx";
    assert TokenName(s, 4) == "minecraftx";
  }

  /** A listing in the shape `screen -list` prints, with two sessions: the second
      session's name is found after the first session's line. */
  lemma ListingWithTwoSessions()
    ensures ScreenExists("There are screens on:\n\t4242.minecraft\t(Detached)\n\t77.playit\t(Detached)\n", "playit")
  {
    var s := "There are screens on:\n\t4242.minecraft\t(Detached)\n\t77.playit\t(Detached)\n";
    assert TokenDot(s, 52);
    RunEndAt(s, 53, 59, Lowers);
    assert TokenName(s, 52) == "playit";
  }
}
