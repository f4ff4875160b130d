/**
 * The file name under which a post's results are saved
 * (src/lib/pdfGenerator.ts:111): the post title with every character other
 * than an ASCII letter or digit replaced by `_`, followed by
 * `_Results.pdf`. The pattern has the `i` flag but no `u` flag, so only
 * ASCII letters count as letters.
 */
module ResultsFileName {

  const Suffix: string := "_Results.pdf"

  /** `[a-z0-9]` under the `i` flag. */
  predicate IsAsciiAlnum(c: char) {
    ('a' <= c <= 'z') || ('A' <= c <= 'Z') || ('0' <= c <= '9')
  }

  function SanitizeChar(c: char): (r: char)
    ensures IsAsciiAlnum(c) ==> r == c
    ensures !IsAsciiAlnum(c) ==> r == '_'
  {
    if IsAsciiAlnum(c) then c else '_'
  }

  /** `title.replace(/[^a-z0-9]/gi, '_')`. */
  function Sanitize(title: string): (r: string)
    ensures |r| == |title|
    ensures forall i :: 0 <= i < |title| ==> r[i] == SanitizeChar(title[i])
  {
    if |title| == 0 then ""
    else [SanitizeChar(title[0])] + Sanitize(title[1..])
  }

  /** Every character of a sanitised title is an ASCII letter, a digit or `_`. */
  lemma SanitizedIsSafe(title: string)
    ensures forall i :: 0 <= i < |title| ==> IsAsciiAlnum(Sanitize(title)[i]) || Sanitize(title)[i] == '_'
  {
  }

  /** Sanitising twice is sanitising once. */
  lemma SanitizeIdempotent(title: string)
    ensures Sanitize(Sanitize(title)) == Sanitize(title)
  {
  }

  /** The titles that sanitising leaves alone are exactly those made of ASCII letters, digits and `_`. */
  lemma SanitizeFixedPoints(title: string)
    ensures Sanitize(title) == title <==> forall i :: 0 <= i < |title| ==> IsAsciiAlnum(title[i]) || title[i] == '_'
  {
    if Sanitize(title) == title {
      forall i | 0 <= i < |title| ensures IsAsciiAlnum(title[i]) || title[i] == '_' {
        assert Sanitize(title)[i] == SanitizeChar(title[i]);
      }
    }
  }

  /** Sanitising commutes with joining titles. */
  lemma {:induction false} SanitizeAppend(a: string, b: string)
    ensures Sanitize(a + b) == Sanitize(a) + Sanitize(b)
  {
    if |a| > 0 {
      assert (a + b)[1..] == a[1..] + b;
      SanitizeAppend(a[1..], b);
    } else {
      assert a + b == b;
    }
  }

  /** The saved file's name. */
  function FileName(title: string): (r: string)
    ensures |r| == |title| + |Suffix|
    ensures r[..|title|] == Sanitize(title) && r[|title|..] == Suffix
  {
    Sanitize(title) + Suffix
  }

  /** Two titles give the same file name exactly when they agree wherever either has a letter or digit. */
  lemma FileNameCollision(t1: string, t2: string)
    requires |t1| == |t2|
    ensures FileName(t1) == FileName(t2) <==> forall i :: 0 <= i < |t1| ==> SanitizeChar(t1[i]) == SanitizeChar(t2[i])
  {
    if FileName(t1) == FileName(t2) {
      assert Sanitize(t1) == FileName(t1)[..|t1|] == FileName(t2)[..|t2|] == Sanitize(t2);
    } else {
      assert Sanitize(t1) != Sanitize(t2);
    }
  }
}
