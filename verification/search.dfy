/** First-match search over a sequence: the `for ... range ... { if ... { break } }`
    idiom the watcher uses both for channels and for messages. */
module Search {
  import opened Wrappers

  /** `k` is the position of the first element of `s` satisfying `p`. */
  ghost predicate IsFirst<T>(s: seq<T>, p: T -> bool, k: int) {
    && 0 <= k < |s|
    && p(s[k])
    && forall j :: 0 <= j < k ==> !p(s[j])
  }

  /** Index of the first element of `s` satisfying `p`, or None when none does. */
  function FirstIndex<T>(s: seq<T>, p: T -> bool): (r: Option<nat>)
    ensures r.Some? ==> IsFirst(s, p, r.value)
    ensures r.None? ==> forall j :: 0 <= j < |s| ==> !p(s[j])
  {
    if |s| == 0 then None
    else if p(s[0]) then Some(0)
    else
      match FirstIndex(s[1..], p)
      case None => None
      case Some(k) => Some(k + 1)
  }

  /** There is only one first position. */
  lemma FirstIsUnique<T>(s: seq<T>, p: T -> bool, k: int, k': int)
    requires IsFirst(s, p, k) && IsFirst(s, p, k')
    ensures k == k'
  {
  }

  /** FirstIndex finds every first position: the converse of its contract. */
  lemma FirstIndexFinds<T>(s: seq<T>, p: T -> bool, k: int)
    requires IsFirst(s, p, k)
    ensures FirstIndex(s, p) == Some(k)
  {
    var r := FirstIndex(s, p);
    if r.Some? {
      FirstIsUnique(s, p, r.value, k);
    }
  }
}
