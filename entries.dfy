/** The `entries` package: looking an entry up in a list of entries. */
module Entries {
  import opened Types

  /**
   * Find: scans the haystack in order and stops at the first entry equal to
   * the needle (same Japanese and English, whatever the tags). It returns that
   * very object, so changing its tags changes the haystack's entry; when no
   * entry is equal, the target is null and found is false. Nothing is modified.
   */
  method Find(needle: Entry, haystack: seq<Entry>) returns (target: Entry?, found: bool)
    ensures found <==> exists i :: 0 <= i < |haystack| && EntriesAreEqual(haystack[i], needle)
    ensures found ==> exists i :: (0 <= i < |haystack| && target == haystack[i]
      && EntriesAreEqual(haystack[i], needle)
      && forall j :: 0 <= j < i ==> !EntriesAreEqual(haystack[j], needle))
    ensures !found ==> target == null
  {
    found := false;
    target := null;
    var i := 0;
    while i < |haystack|
      invariant 0 <= i <= |haystack|
      invariant forall j :: 0 <= j < i ==> !EntriesAreEqual(haystack[j], needle)
      invariant !found && target == null
    {
      if EntriesAreEqual(haystack[i], needle) {
        found := true;
        target := haystack[i];
        break;
      }
      i := i + 1;
    }
  }
}
