/** The badge icon path of a session, derived from its display name. */
module Icons {

  /** ASCII lower-casing of one character. */
  function LowerChar(c: char): (r: char)
    ensures 'A' <= c <= 'Z' ==> r as int == c as int + 32
    ensures !('A' <= c <= 'Z') ==> r == c
    ensures !('A' <= r <= 'Z')
  {
    if 'A' <= c <= 'Z' then (c as int + 32) as char else c
  }

  /** ASCII lower-casing of a string, character by character. */
  function Lower(s: string): (r: string)
    ensures |r| == |s|
    ensures forall i :: 0 <= i < |s| ==> r[i] == LowerChar(s[i])
  {
    if s == [] then [] else [LowerChar(s[0])] + Lower(s[1..])
  }

  /** Two names that agree once each letter is lower-cased. */
  predicate EqualIgnoringCase(a: string, b: string)
  {
    |a| == |b| && forall i :: 0 <= i < |a| ==> LowerChar(a[i]) == LowerChar(b[i])
  }

  const BadgeDir: string := "badges/"
  const BadgeSuffix: string := "_badge-symbolic.svg"

  /** The path of the badge for a session name under the image directory. */
  function SessionIcon(imageDir: string, name: string): string
  {
    imageDir + BadgeDir + Lower(name) + BadgeSuffix
  }

  /** Lower-casing twice is lower-casing once. */
  lemma LowerIdempotent(s: string)
    ensures Lower(Lower(s)) == Lower(s)
  {
  }

  /** Two names get the same icon path exactly when they differ only in
      letter case. */
  lemma SessionIconCaseInsensitive(imageDir: string, a: string, b: string)
    ensures SessionIcon(imageDir, a) == SessionIcon(imageDir, b) <==> EqualIgnoringCase(a, b)
  {
    var p := imageDir + BadgeDir;
    var pa, pb := SessionIcon(imageDir, a), SessionIcon(imageDir, b);
    if pa == pb {
      assert |Lower(a)| == |Lower(b)|;
      assert Lower(a) == pa[|p|..|pa| - |BadgeSuffix|];
      assert Lower(b) == pb[|p|..|pb| - |BadgeSuffix|];
      forall i | 0 <= i < |a| ensures LowerChar(a[i]) == LowerChar(b[i]) {
        assert Lower(a)[i] == Lower(b)[i];
      }
    }
    if EqualIgnoringCase(a, b) {
      assert Lower(a) == Lower(b);
    }
  }

  /** The icon of a name is the icon of its lower-cased form. */
  lemma SessionIconOfLower(imageDir: string, name: string)
    ensures SessionIcon(imageDir, Lower(name)) == SessionIcon(imageDir, name)
  {
    LowerIdempotent(name);
  }
}
