/** What a target pattern means, read off its text: no tokens, no matcher. */
module GlobPatterns {

  /** A class body lists a character, by itself or in a range. */
  predicate Lists(body: string, c: char) {
    body != [] &&
    if |body| > 2 && body[1] == '-' then body[0] <= c <= body[2] || Lists(body[3..], c)
    else c == body[0] || Lists(body[1..], c)
  }

  /** No range of the body is inverted. */
  predicate RangesAscend(body: string) {
    body == [] ||
    if |body| > 2 && body[1] == '-' then body[0] <= body[2] && RangesAscend(body[3..])
    else RangesAscend(body[1..])
  }

  /** Some character of the body is the separator and some is not. */
  ghost predicate Straddles(body: string) {
    Lists(body, '/') && exists c :: c != '/' && Lists(body, c)
  }

  function BodyAt(p: string): nat {
    if |p| > 1 && p[1] == '!' then 2 else 1
  }

  /** The class that opens a pattern is closed by the bracket at `k`; one right where the body begins is a
      member. */
  predicate Closes(p: string, k: nat) {
    p != [] && p[0] == '[' && BodyAt(p) < k < |p| && p[k] == ']' && ']' !in p[BodyAt(p) + 1..k]
  }

  predicate Closed(p: string) {
    exists k | 0 <= k < |p| :: Closes(p, k)
  }

  /** The class that opens a pattern and closes at `k` takes the character. */
  predicate Takes(p: string, k: nat, c: char)
    requires Closes(p, k)
  {
    var body := p[BodyAt(p)..k];
    RangesAscend(body) && if p[1] == '!' then c != '/' && !Lists(body, c) else Lists(body, c)
  }

  /** The text belongs to the language of the pattern. */
  ghost predicate Means(p: string, t: string)
    decreases |p|
  {
    if p == [] then t == []
    else if |p| > 1 && p[0] == '*' && p[1] == '*' then
      exists k | 0 <= k <= |t| :: Means(p[2..], t[k..])
    else if p[0] == '*' then
      exists k | 0 <= k <= |t| :: '/' !in t[..k] && Means(p[1..], t[k..])
    else if Closed(p) then
      t != [] && exists k | 0 <= k < |p| :: Closes(p, k) && Takes(p, k, t[0]) && Means(p[k + 1..], t[1..])
    else
      t != [] && (if p[0] == '?' then t[0] != '/' else t[0] == p[0]) && Means(p[1..], t[1..])
  }

  /** No class of the pattern lists the separator together with something else. */
  ghost predicate Clear(p: string)
    decreases |p|
  {
    if p == [] then true
    else if Closed(p) then
      forall k | 0 <= k < |p| && Closes(p, k) :: (p[1] == '!' || !Straddles(p[1..k])) && Clear(p[k + 1..])
    else Clear(p[1..])
  }
}
