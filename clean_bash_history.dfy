/**
 * The de-duplication loop of python/clean-bash-history.py: keep each history
 * line the first time it is seen, count unique and duplicate lines, and write
 * the kept lines back joined together.
 */
module BashHistory {

  /** No line occurs twice. */
  predicate NoDuplicates(s: seq<string>)
  {
    forall i, j :: 0 <= i < j < |s| ==> s[i] != s[j]
  }

  /** The index of the first occurrence of `x` in `s`. */
  function FirstIndex(s: seq<string>, x: string): (k: nat)
    requires x in s
    ensures k < |s| && s[k] == x && x !in s[..k]
  {
    if s[0] == x then 0 else 1 + FirstIndex(s[1..], x)
  }

  /** The text written out: the kept lines concatenated in order (each still ends in its newline). */
  function Concat(lines: seq<string>): string
  {
    if lines == [] then "" else lines[0] + Concat(lines[1..])
  }

  /** A line seen for the first time lands at its own index. */
  lemma FirstIndexOfNew(s: seq<string>, i: nat)
    requires i < |s| && s[i] !in s[..i]
    ensures FirstIndex(s, s[i]) == i
  {
    var k := FirstIndex(s, s[i]);
    assert forall j :: 0 <= j < i ==> s[..i][j] == s[j];
    assert forall j :: 0 <= j < k ==> s[..k][j] == s[j];
  }

  /** Appending one more line to what is written appends its text. */
  lemma {:induction false} ConcatSnoc(lines: seq<string>, x: string)
    ensures Concat(lines + [x]) == Concat(lines) + x
  {
    if lines != [] {
      assert (lines + [x])[1..] == lines[1..] + [x];
      ConcatSnoc(lines[1..], x);
    }
  }

  /**
   * What the loop keeps after the first `i` lines: each distinct line of
   * `history[..i]` once, in order of first occurrence.
   */
  ghost predicate KeptSoFar(history: seq<string>, i: nat, existing: seq<string>)
    requires i <= |history|
  {
    && NoDuplicates(existing)
    && (forall x :: x in existing <==> x in history[..i])
    && (forall a :: 0 <= a < |existing| ==> existing[a] in history && FirstIndex(history, existing[a]) < i)
    && (forall a, b :: 0 <= a < b < |existing| ==>
          FirstIndex(history, existing[a]) < FirstIndex(history, existing[b]))
  }

  /** A line not seen before is appended, and the kept lines still describe one more line. */
  lemma KeepNew(history: seq<string>, i: nat, existing: seq<string>)
    requires i < |history| && KeptSoFar(history, i, existing) && history[i] !in existing
    ensures KeptSoFar(history, i + 1, existing + [history[i]])
  {
    assert history[..i + 1] == history[..i] + [history[i]];
    FirstIndexOfNew(history, i);
  }

  /** A line seen before is skipped, and the kept lines still describe one more line. */
  lemma SkipSeen(history: seq<string>, i: nat, existing: seq<string>)
    requires i < |history| && KeptSoFar(history, i, existing) && history[i] in existing
    ensures KeptSoFar(history, i + 1, existing)
  {
    assert history[..i + 1] == history[..i] + [history[i]];
    forall a | 0 <= a < |existing|
      ensures FirstIndex(history, existing[a]) < i + 1
    {
    }
  }

  /**
   * The loop over the history lines. `existing` holds every distinct line
   * once, in order of first occurrence; `unique` counts it and `dupe` counts
   * the rest; `output` is the text written to the new history file.
   */
  method Deduplicate(history: seq<string>) returns (existing: seq<string>, unique: nat, dupe: nat, output: string)
    ensures NoDuplicates(existing)
    ensures forall x :: x in existing <==> x in history
    ensures forall a, b :: 0 <= a < b < |existing| ==>
      FirstIndex(history, existing[a]) < FirstIndex(history, existing[b])
    ensures unique == |existing| && unique + dupe == |history|
    ensures output == Concat(existing)
  {
    existing := [];
    unique, dupe := 0, 0;
    output := "";
    var i := 0;
    while i < |history|
      invariant 0 <= i <= |history|
      invariant KeptSoFar(history, i, existing)
      invariant unique == |existing| && unique + dupe == i
      invariant output == Concat(existing)
    {
      var line := history[i];
      if line !in existing {
        KeepNew(history, i, existing);
        ConcatSnoc(existing, line);
        existing := existing + [line];
        output := output + line;
        unique := unique + 1;
      } else {
        SkipSeen(history, i, existing);
        dupe := dupe + 1;
      }
      i := i + 1;
    }
    assert history[..i] == history;
  }
}
