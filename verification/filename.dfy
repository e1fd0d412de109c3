/** The output file name chosen by the `captureTab` handler
    (entrypoints/background.ts, lines 245-246):
    `hostname.replace('www.', '').split('.')[0] + '-pdf-r.pdf'`. */
module FileNames {

  const Suffix: string := "-pdf-r.pdf"
  const Www: string := "www."

  predicate OccursAt(s: string, pat: string, i: nat)
  {
    i + |pat| <= |s| && s[i..i + |pat|] == pat
  }

  /** The first index at or after `from` where `pat` occurs, or `|s|` when it
      does not occur there (what `indexOf` reports as -1). */
  function FirstOccurrence(s: string, pat: string, from: nat): (i: nat)
    requires from <= |s|
    ensures from <= i <= |s|
    ensures i < |s| ==> OccursAt(s, pat, i)
    ensures forall j :: from <= j < i ==> !OccursAt(s, pat, j)
    decreases |s| - from
  {
    if from + |pat| > |s| then |s|
    else if s[from..from + |pat|] == pat then from
    else FirstOccurrence(s, pat, from + 1)
  }

  /** `s.replace(pat, '')` with a string pattern: only the FIRST occurrence
      is removed, wherever it is; without an occurrence the string is
      unchanged. */
  function RemoveFirst(s: string, pat: string): (r: string)
    ensures (forall j :: 0 <= j < |s| ==> !OccursAt(s, pat, j)) ==> r == s
    ensures forall i :: 0 <= i < |s| && OccursAt(s, pat, i) &&
                        (forall j :: 0 <= j < i ==> !OccursAt(s, pat, j))
                        ==> r == s[..i] + s[i + |pat|..]
  {
    var i := FirstOccurrence(s, pat, 0);
    if i == |s| then s else s[..i] + s[i + |pat|..]
  }

  /** `s.split('.')[0]`: everything before the first dot. */
  function FirstLabel(s: string): (r: string)
    ensures '.' !in r
    ensures r <= s
    ensures |r| < |s| ==> s[|r|] == '.'
  {
    if |s| == 0 || s[0] == '.' then []
    else [s[0]] + FirstLabel(s[1..])
  }

  /** The file name; an absent or empty tab URL (`!tab.url`) gives just the
      suffix, otherwise the URL parser's `hostname` supplies the prefix. */
  function FileName(url: string, hostname: string): (name: string)
    ensures |name| >= |Suffix| && name[|name| - |Suffix|..] == Suffix
    ensures '.' !in name[..|name| - |Suffix|]
    ensures url == [] ==> name == Suffix
    ensures url != [] ==>
              var host := RemoveFirst(hostname, Www);
              var prefix := name[..|name| - |Suffix|];
              prefix <= host && (|prefix| == |host| || host[|prefix|] == '.')
  {
    if url == [] then Suffix
    else
      var prefix := FirstLabel(RemoveFirst(hostname, Www));
      assert (prefix + Suffix)[..|prefix|] == prefix;
      prefix + Suffix
  }

  /** The label before the first dot of `p + "." + t` is `p`. */
  lemma {:induction false} FirstLabelOfDotted(p: string, t: string)
    requires '.' !in p
    ensures FirstLabel(p + "." + t) == p
  {
    if |p| > 0 {
      assert (p + "." + t)[1..] == p[1..] + "." + t;
      FirstLabelOfDotted(p[1..], t);
    }
  }
}
