/** The offline lesson render decision of `loadLesson` (project.js:47-66), with the
    browser abstracted away: network reachability, the two IndexedDB lookups and the
    object URL minted for the cached image blob are all inputs. */
module Lesson {
  import opened Wrappers
  import opened Strings

  /** The placeholder written when no lesson record was cached. */
  const NotAvailableOffline: string := "<p>❌ Lesson not available offline</p>"

  /** `i` is where `p` first occurs in `s`. */
  predicate FirstOccurrence(s: string, p: string, i: nat)
  {
    OccursAt(s, p, i) && forall j: nat | j < i :: !OccursAt(s, p, j)
  }

  /** `s.replace(p, rep)` with a string pattern: only the FIRST occurrence of `p`
      is replaced; without an occurrence the string is returned unchanged. Where the
      pattern occurs, what comes before its first occurrence and what comes after that
      occurrence are kept. */
  function ReplaceFirst(s: string, p: string, rep: string): (r: string)
    ensures (forall j: nat :: !OccursAt(s, p, j)) ==> r == s
    ensures forall i: nat | FirstOccurrence(s, p, i) :: r == s[..i] + rep + s[i + |p|..]
  {
    match IndexOf(s, p)
    case None => s
    case Some(i) => s[..i] + rep + s[i + |p|..]
  }

  /** An occurrence in `s` at or after `j` is still an occurrence once everything before
      `j` is replaced by `head`, shifted to match. */
  lemma OccurrenceAfterCut(head: string, s: string, p: string, j: nat, k: nat, k': nat)
    requires j <= k && OccursAt(s, p, k) && k' == |head| + k - j
    ensures OccursAt(head + s[j..], p, k')
  {
    var t := head + s[j..];
    forall m | 0 <= m < |p| ensures t[k' + m] == p[m] {
      assert t[k' + m] == s[k + m] == s[k..k + |p|][m];
    }
    assert t[k'..k' + |p|] == p;
  }

  /** The splice `s[..i] + rep + s[i + |p|..]` keeps every occurrence of `p` that starts
      at or after `i + |p|`, shifted by the change in length. */
  lemma SpliceKeepsLater(s: string, p: string, rep: string, i: nat, k: nat, r: string)
    requires i + |p| <= k && OccursAt(s, p, k)
    requires r == s[..i] + rep + s[i + |p|..]
    ensures OccursAt(r, p, k - |p| + |rep|)
  {
    OccurrenceAfterCut(s[..i] + rep, s, p, i + |p|, k, k - |p| + |rep|);
  }

  /** Only the first occurrence is replaced: an occurrence that starts after the end
      of the first one is still in the result, shifted by the change in length. */
  lemma ReplaceFirstKeepsLater(s: string, p: string, rep: string, i: nat, k: nat)
    requires FirstOccurrence(s, p, i)
    requires i + |p| <= k && OccursAt(s, p, k)
    ensures OccursAt(ReplaceFirst(s, p, rep), p, k - |p| + |rep|)
  {
    SpliceKeepsLater(s, p, rep, i, k, ReplaceFirst(s, p, rep));
  }

  /** A concrete instance: two occurrences, only the first is rewritten. */
  lemma ReplaceFirstOnlyOnce()
    ensures ReplaceFirst("a.png a.png", "a.png", "blob:1") == "blob:1 a.png"
  {
    assert FirstOccurrence("a.png a.png", "a.png", 0);
  }

  /** The markup `loadLesson` writes into the lesson region, or `None` when it writes
      nothing. `storeOpen` says whether the open request's success handler has set `db`:
      offline before that, `db.transaction` is called on `undefined` and throws. A lesson
      record cached without its image record makes the image request's callback read
      `.blob` of `undefined` and throw before anything is written. */
  function LoadLesson(online: bool, storeOpen: bool, liveHtml: string, imageUrl: string,
                      cachedContent: Option<string>, imageCached: bool,
                      objectUrl: string): (r: Option<string>)
    ensures online ==> r == Some(liveHtml)
    ensures !online && !storeOpen ==> r.None?
    ensures !online && storeOpen && cachedContent.None? ==> r == Some(NotAvailableOffline)
    ensures !online && storeOpen && cachedContent.Some? && imageCached ==>
      r == Some(ReplaceFirst(cachedContent.value, imageUrl, objectUrl))
    ensures r.None? <==> !online && (!storeOpen || (cachedContent.Some? && !imageCached))
  {
    if online then Some(liveHtml)
    else if !storeOpen then None
    else match cachedContent
      case None => Some(NotAvailableOffline)
      case Some(content) =>
        if imageCached then Some(ReplaceFirst(content, imageUrl, objectUrl)) else None
  }
}
