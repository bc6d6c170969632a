/** The line filter shared by the seeds file of the crawler and the handles file of the social
    scraper: strip each line, drop blank lines and lines starting with '#', keep file order. */
module Lines {
  import opened Text
  import Seqs

  /** A stripped line that is kept: non-empty and not a '#' comment. */
  predicate IsContentLine(stripped: string)
  {
    stripped != "" && !StartsWith(stripped, "#")
  }

  /** Every line of a file, stripped. */
  function StrippedLines(lines: seq<string>): (r: seq<string>)
    ensures |r| == |lines| && forall i :: 0 <= i < |lines| ==> r[i] == Strip(lines[i])
  {
    seq(|lines|, i requires 0 <= i < |lines| => Strip(lines[i]))
  }

  /** The kept lines, stripped, in file order. */
  function ContentLines(lines: seq<string>): seq<string>
  {
    Seqs.Filter(StrippedLines(lines), IsContentLine)
  }

  /** A kept line is a stripped line of the file, the one at index `i`: non-empty, not starting
      with '#', without surrounding whitespace. */
  lemma ContentLinesShape(lines: seq<string>, kept: string) returns (i: nat)
    requires kept in ContentLines(lines)
    ensures kept != "" && kept[0] != '#' && !IsSpace(kept[0]) && !IsSpace(kept[|kept| - 1])
    ensures i < |lines| && Strip(lines[i]) == kept
  {
    i := ContentLineSource(lines, kept);
    KeptLineShape(lines, i, kept);
  }

  /** A kept line is the strip of the file line at index `k`. */
  lemma ContentLineSource(lines: seq<string>, kept: string) returns (k: nat)
    requires kept in ContentLines(lines)
    ensures k < |lines| && Strip(lines[k]) == kept && IsContentLine(kept)
  {
    var stripped := StrippedLines(lines);
    Seqs.FilterSource(stripped, IsContentLine, kept);
    k :| 0 <= k < |stripped| && stripped[k] == kept;
  }

  /** A line whose strip is kept: the kept text starts with neither '#' nor whitespace and does
      not end with whitespace. */
  lemma KeptLineShape(lines: seq<string>, k: nat, kept: string)
    requires k < |lines| && kept == Strip(lines[k]) && IsContentLine(kept)
    ensures kept != "" && kept[0] != '#' && !IsSpace(kept[0]) && !IsSpace(kept[|kept| - 1])
  {
    assert [kept[0]] <= kept;
  }

  /** Every line that strips to a non-empty text not starting with '#' is kept. */
  lemma ContentLinesComplete(lines: seq<string>, i: nat)
    requires i < |lines| && IsContentLine(Strip(lines[i]))
    ensures Strip(lines[i]) in ContentLines(lines)
    ensures |ContentLines(lines)| <= |lines|
  {
    var stripped := StrippedLines(lines);
    Seqs.FilterProperties(stripped, IsContentLine);
    assert stripped[i] == Strip(lines[i]);
    assert Strip(lines[i]) in stripped;
  }

  /** One more line of the file. */
  lemma ContentLinesStep(lines: seq<string>, i: nat)
    requires i < |lines|
    ensures ContentLines(lines[..i + 1]) ==
              ContentLines(lines[..i]) + (if IsContentLine(Strip(lines[i])) then [Strip(lines[i])] else [])
  {
    StrippedLinesStep(lines, i);
    Seqs.FilterAppend(StrippedLines(lines[..i]), Strip(lines[i]), IsContentLine);
  }

  lemma StrippedLinesStep(lines: seq<string>, i: nat)
    requires i < |lines|
    ensures StrippedLines(lines[..i + 1]) == StrippedLines(lines[..i]) + [Strip(lines[i])]
  {
    var a, b := StrippedLines(lines[..i + 1]), StrippedLines(lines[..i]) + [Strip(lines[i])];
    forall k | 0 <= k < |a| ensures a[k] == b[k] {
      if k < i {
        assert lines[..i + 1][k] == lines[..i][k];
      }
    }
  }
}
