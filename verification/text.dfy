/** String searching shared by the artifact-name parsers. */
module Text {
  import opened Wrappers

  /** Position of the last occurrence of `c` in `s`. */
  function LastIndexOf(s: string, c: char): (r: Option<nat>)
    ensures r.Some? ==> r.value < |s| && s[r.value] == c
    ensures r.Some? ==> forall j :: r.value < j < |s| ==> s[j] != c
    ensures r.None? ==> forall j :: 0 <= j < |s| ==> s[j] != c
  {
    if |s| == 0 then None
    else if s[|s| - 1] == c then Some(|s| - 1)
    else LastIndexOf(s[..|s| - 1], c)
  }

  /** The separator `c` placed before a tail free of `c` is the last one. */
  lemma {:induction false} LastIndexOfBeforeTail(head: string, c: char, tail: string)
    requires forall j :: 0 <= j < |tail| ==> tail[j] != c
    ensures LastIndexOf(head + [c] + tail, c) == Some(|head|)
    decreases |tail|
  {
    var s := head + [c] + tail;
    if |tail| > 0 {
      var shorter := tail[..|tail| - 1];
      assert s[..|s| - 1] == head + [c] + shorter;
      LastIndexOfBeforeTail(head, c, shorter);
    }
  }
}
