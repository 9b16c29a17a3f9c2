/** Stripping and joining of strings. What counts as white space is a parameter, since the languages
    of the program differ in it. */
module Text {

  function StripLeft(s: string, ws: char -> bool): string {
    if s != "" && ws(s[0]) then StripLeft(s[1..], ws) else s
  }

  function StripRight(s: string, ws: char -> bool): string {
    if s != "" && ws(s[|s| - 1]) then StripRight(s[..|s| - 1], ws) else s
  }

  function Strip(s: string, ws: char -> bool): string {
    StripRight(StripLeft(s, ws), ws)
  }

  /** How many characters stripping removes in front. */
  function Leading(s: string, ws: char -> bool): (n: nat)
    ensures n <= |s|
  {
    if s != "" && ws(s[0]) then 1 + Leading(s[1..], ws) else 0
  }

  lemma {:induction false} StripLeftIs(s: string, ws: char -> bool)
    ensures StripLeft(s, ws) == s[Leading(s, ws)..]
    ensures forall i :: 0 <= i < Leading(s, ws) ==> ws(s[i])
    ensures Leading(s, ws) < |s| ==> !ws(s[Leading(s, ws)])
  {
    if s != "" && ws(s[0]) {
      StripLeftIs(s[1..], ws);
      assert forall i :: 1 <= i < |s| ==> s[i] == s[1..][i - 1];
    }
  }

  lemma {:induction false} StripRightIs(s: string, ws: char -> bool)
    ensures var n := |StripRight(s, ws)|;
      && n <= |s| && StripRight(s, ws) == s[..n]
      && (forall i :: n <= i < |s| ==> ws(s[i]))
      && (n > 0 ==> !ws(s[n - 1]))
  {
    if s != "" && ws(s[|s| - 1]) {
      StripRightIs(s[..|s| - 1], ws);
    }
  }

  /** A stripped string is a slice; outside it lies only white space, and it starts and ends with
      other characters. */
  lemma StripIs(s: string, ws: char -> bool)
    ensures var a, n := Leading(s, ws), |Strip(s, ws)|;
      && a + n <= |s| && Strip(s, ws) == s[a..a + n]
      && (forall i :: 0 <= i < a ==> ws(s[i])) && (forall i :: a + n <= i < |s| ==> ws(s[i]))
      && (n > 0 ==> !ws(s[a]) && !ws(s[a + n - 1]))
  {
    StripLeftIs(s, ws);
    StripRightIs(StripLeft(s, ws), ws);
    var a, n := Leading(s, ws), |Strip(s, ws)|;
    assert forall i :: a <= i < |s| ==> s[i] == StripLeft(s, ws)[i - a];
  }

  /** A string strips to nothing exactly when it is all white space. */
  lemma StripEmptyIff(s: string, ws: char -> bool)
    ensures Strip(s, ws) == "" <==> forall i :: 0 <= i < |s| ==> ws(s[i])
  {
    StripIs(s, ws);
  }

  function Join(parts: seq<string>, separator: char): string {
    if parts == [] then ""
    else if |parts| == 1 then parts[0]
    else parts[0] + [separator] + Join(parts[1..], separator)
  }
}
