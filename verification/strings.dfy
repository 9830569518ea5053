/** Substring containment, the crawler's same-site test (`url.includes(startUrl)`).
    JavaScript's `String.prototype.includes` compares code units and treats the
    empty string as contained everywhere; here a string is a `seq<char>`. */
module Strings {

  /** `sub` occurs in `s` starting at position `i`. */
  ghost predicate OccursAt(sub: string, s: string, i: int)
  {
    0 <= i && i + |sub| <= |s| && s[i..i + |sub|] == sub
  }

  /** Reference definition: some position of `s` starts a copy of `sub`. */
  ghost predicate IsSubstring(sub: string, s: string)
  {
    exists i :: OccursAt(sub, s, i)
  }

  /** Occurrences in `s[1..]` are the occurrences in `s` shifted by one. */
  lemma OccursAtTail(sub: string, s: string, i: int)
    requires |s| > 0 && 0 <= i
    ensures OccursAt(sub, s[1..], i) <==> OccursAt(sub, s, i + 1)
  {
  }

  /** Whether `sub` occurs in `s` (`s.includes(sub)`), scanning left to right. */
  function Includes(s: string, sub: string): (b: bool)
    ensures b <==> IsSubstring(sub, s)
    decreases |s|
  {
    if |sub| > |s| then
      assert forall i :: !OccursAt(sub, s, i);
      false
    else if s[..|sub|] == sub then
      assert OccursAt(sub, s, 0);
      true
    else
      var rest := Includes(s[1..], sub);
      assert rest ==> IsSubstring(sub, s) by {
        if rest {
          var i :| OccursAt(sub, s[1..], i);
          OccursAtTail(sub, s, i);
        }
      }
      assert IsSubstring(sub, s) ==> rest by {
        if IsSubstring(sub, s) {
          var i :| OccursAt(sub, s, i);
          assert i != 0;
          OccursAtTail(sub, s, i - 1);
        }
      }
      rest
  }

  /** Every string includes itself: the crawl root always passes the same-site test. */
  lemma IncludesSelf(s: string)
    ensures Includes(s, s)
  {
  }

  /** A string includes every prefix of itself followed by anything. */
  lemma IncludesExtension(root: string, suffix: string)
    ensures Includes(root + suffix, root)
  {
  }
}
