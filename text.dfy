/** The text matching behind the search branch: `Question.question.ilike("%term%")`,
    a case-insensitive substring test, with ASCII letters folded to lower case. */
module Text {

  function LowerChar(c: char): (d: char)
  {
    if 'A' <= c <= 'Z' then (c as int + 32) as char else c
  }

  /** ASCII lower case of `s`. */
  function Lower(s: string): (t: string)
    ensures |t| == |s|
  {
    seq(|s|, i requires 0 <= i < |s| => LowerChar(s[i]))
  }

  /** `needle` occurs in `hay` starting at index `i`. */
  predicate OccursAt(hay: string, needle: string, i: int)
  {
    0 <= i && i + |needle| <= |hay| && hay[i..i + |needle|] == needle
  }

  /** `needle` is a substring of `hay`, tried at each start position from the left. */
  predicate Contains(hay: string, needle: string)
    decreases |hay|
  {
    (|needle| <= |hay| && hay[..|needle|] == needle) || (|hay| > 0 && Contains(hay[1..], needle))
  }

  /** The left-to-right test agrees with the definition of a substring: some start position. */
  lemma {:induction false} ContainsIff(hay: string, needle: string)
    ensures Contains(hay, needle) <==> exists i :: OccursAt(hay, needle, i)
    decreases |hay|
  {
    if |needle| <= |hay| && hay[..|needle|] == needle {
      assert OccursAt(hay, needle, 0);
    } else if |hay| > 0 {
      ContainsIff(hay[1..], needle);
      if Contains(hay[1..], needle) {
        var i :| OccursAt(hay[1..], needle, i);
        assert hay[1..][i..i + |needle|] == hay[i + 1..i + 1 + |needle|];
        assert OccursAt(hay, needle, i + 1);
      } else {
        forall i | OccursAt(hay, needle, i)
          ensures false
        {
          assert i != 0;
          assert hay[1..][i - 1..i - 1 + |needle|] == hay[i..i + |needle|];
          assert OccursAt(hay[1..], needle, i - 1);
        }
      }
    }
  }

  /** ILIKE '%term%': `term` occurs in `text` at some position once both are folded to
      lower case. */
  function ContainsIgnoringCase(text: string, term: string): (r: bool)
    ensures r <==> exists i :: OccursAt(Lower(text), Lower(term), i)
  {
    ContainsIff(Lower(text), Lower(term));
    Contains(Lower(text), Lower(term))
  }

  lemma LowerIsIdempotent(s: string)
    ensures Lower(Lower(s)) == Lower(s)
  {
  }

  /** The match does not depend on how either side is capitalised. */
  lemma MatchIgnoresCase(text: string, term: string)
    ensures ContainsIgnoringCase(text, term) == ContainsIgnoringCase(Lower(text), term)
    ensures ContainsIgnoringCase(text, term) == ContainsIgnoringCase(text, Lower(term))
  {
    LowerIsIdempotent(text);
    LowerIsIdempotent(term);
  }
}
