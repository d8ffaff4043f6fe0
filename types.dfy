/**
 * The `types` package: a tag set with a deterministic sorted rendering, and a
 * dictionary entry (Japanese text, English text, tags) with its equality,
 * redefinition and tag-merging rules.
 */
module Types {
  import opened Wrappers
  import opened GoStrings
  import opened StringOrder

  // ---------------------------------------------------------------- tags

  /** A tag as a TagSet holds it: non-empty and free of the separating space. */
  predicate IsTag(t: string)
  {
    t != "" && ' ' !in t
  }

  /** The non-empty strings among `pieces`. */
  function NonEmptyPieces(pieces: seq<string>): set<string>
  {
    set p | p in pieces && p != ""
  }

  /** The tags a tag string names: its non-empty pieces between single spaces. */
  function Tokens(text: string): (r: set<string>)
    ensures forall t :: t in r ==> IsTag(t)
  {
    NonEmptyPieces(Split(text, ' '))
  }

  /** Every tag keeps its first and last character through `strings.TrimSpace`. */
  predicate SurvivesTrim(S: set<string>)
  {
    forall t :: t in S ==> NoEdgeSpace(t)
  }

  /** Each part followed by one space, as ToString writes them into its builder. */
  function SpaceTerminated(parts: seq<string>): string
  {
    if parts == [] then "" else SpaceTerminated(parts[..|parts| - 1]) + parts[|parts| - 1] + " "
  }

  /** The text ToString gives for a set of tags. */
  ghost function Rendered(S: set<string>): string
  {
    TrimSpace(SpaceTerminated(Listing(S)))
  }

  lemma {:induction false} SpaceTerminatedIsJoin(parts: seq<string>)
    requires |parts| >= 1
    ensures SpaceTerminated(parts) == Join(parts, ' ') + " "
    decreases |parts|
  {
    var init, last := parts[..|parts| - 1], parts[|parts| - 1];
    assert parts == init + [last];
    if |init| == 0 {
      assert parts == [last];
    } else {
      SpaceTerminatedIsJoin(init);
      JoinAppend(init, last, ' ');
    }
  }

  /**
   * When no tag starts or ends with white space, the rendering is the sorted
   * tags joined by single spaces: TrimSpace removes exactly the final separator.
   */
  lemma RenderedIsJoin(S: set<string>)
    requires forall t :: t in S ==> IsTag(t)
    requires SurvivesTrim(S)
    ensures Rendered(S) == Join(Listing(S), ' ')
  {
    var L := Listing(S);
    if L != [] {
      var j := Join(L, ' ');
      assert L[0] in S && L[|L| - 1] in S;
      JoinFirst(L, ' ');
      JoinLast(L, ' ');
      SpaceTerminatedIsJoin(L);
      var t := TrimRight(j + " ");
      assert t == j by {
        assert (j + " ")[|j|] == ' ';
        assert (j + " ")[|j| - 1] == j[|j| - 1] && !IsSpace(j[|j| - 1]);
        assert |t| == |j|;
        assert t == (j + " ")[..|j|] == j;
      }
      assert TrimLeft(j) == j;
    }
  }

  /** The receiver's tags after MergeTags: its own plus those read back from the source's rendering. */
  ghost function Merged(mine: set<string>, theirs: set<string>): set<string>
  {
    mine + Tokens(Rendered(theirs))
  }

  /**
   * Merging is the union of the two tag sets when no source tag has white
   * space at its ends; so tags already present are absorbed, and merging a
   * subset of the receiver's tags changes nothing.
   */
  lemma MergedIsUnion(mine: set<string>, theirs: set<string>)
    requires forall t :: t in theirs ==> IsTag(t)
    requires SurvivesTrim(theirs)
    ensures Merged(mine, theirs) == mine + theirs
    ensures theirs <= mine ==> Merged(mine, theirs) == mine
  {
    TokensOfRendered(theirs);
  }

  /**
   * Round trip: splitting the rendering of a tag set into tags gives the set
   * back, provided no tag starts or ends with white space.
   */
  lemma TokensOfRendered(S: set<string>)
    requires forall t :: t in S ==> IsTag(t)
    requires SurvivesTrim(S)
    ensures Tokens(Rendered(S)) == S
  {
    RenderedIsJoin(S);
    var L := Listing(S);
    if L == [] {
      assert S == {} by { assert |S| == |L|; }
      assert Split("", ' ') == [""];
    } else {
      SplitJoin(L, ' ');
      TokensOfJoin(L, S);
    }
  }

  /** The tags named by a space-joined listing of tags are the listed tags. */
  lemma TokensOfJoin(L: seq<string>, S: set<string>)
    requires L != [] && Split(Join(L, ' '), ' ') == L
    requires forall x :: x in L <==> x in S
    requires forall t :: t in S ==> IsTag(t)
    ensures Tokens(Join(L, ' ')) == S
  {
    assert Tokens(Join(L, ' ')) == NonEmptyPieces(L);
  }

  /** The builder loop of ToString: each entry written followed by one space. */
  method WriteEntries(entries: seq<string>) returns (b: string)
    ensures b == SpaceTerminated(entries)
  {
    b := "";
    for i := 0 to |entries|
      invariant b == SpaceTerminated(entries[..i])
    {
      assert entries[..i + 1][..i] == entries[..i];
      b := b + entries[i] + " ";
    }
    assert entries[..|entries|] == entries;
  }

  /**
   * A tag set: the keys of Go's `map[string]bool`. Every tag in it is non-empty
   * and contains no space, because tags only enter through splitting on spaces.
   */
  class TagSet {
    var Tags: set<string>

    ghost predicate Valid()
      reads this
    {
      forall t :: t in Tags ==> IsTag(t)
    }

    /** NewTagSet: never fails; the set holds exactly the tags `tags` names. */
    constructor (tags: string)
      ensures Valid() && Tags == Tokens(tags)
    {
      var actualTags := Split(tags, ' ');
      var tagMap: set<string> := {};
      for i := 0 to |actualTags|
        invariant tagMap == NonEmptyPieces(actualTags[..i])
      {
        assert actualTags[..i + 1] == actualTags[..i] + [actualTags[i]];
        if actualTags[i] != "" {
          tagMap := tagMap + {actualTags[i]};
        }
      }
      assert actualTags[..|actualTags|] == actualTags;
      Tags := tagMap;
    }

    /** Adds every tag `tags` names; nothing is removed, and tags already present change nothing. */
    method Insert(tags: string)
      requires Valid()
      modifies this
      ensures Valid()
      ensures Tags == old(Tags) + Tokens(tags)
      ensures Tokens(tags) <= old(Tags) ==> Tags == old(Tags)
    {
      var actualTags := Split(tags, ' ');
      for i := 0 to |actualTags|
        invariant Valid()
        invariant Tags == old(Tags) + NonEmptyPieces(actualTags[..i])
      {
        assert actualTags[..i + 1] == actualTags[..i] + [actualTags[i]];
        if actualTags[i] != "" {
          Tags := Tags + {actualTags[i]};
        }
      }
      assert actualTags[..|actualTags|] == actualTags;
    }

    /**
     * The tags in ascending string order, each exactly once: the unique
     * listing of the set, so as many strings as there are tags.
     */
    method Sort() returns (sorted: seq<string>)
      ensures IsListing(sorted, Tags) && |sorted| == |Tags|
      ensures sorted == Listing(Tags)
    {
      var keys: seq<string> := [];
      var rest := Tags;
      while rest != {}
        invariant rest <= Tags
        invariant multiset(keys) == multiset(Tags - rest)
        decreases rest
      {
        var key :| key in rest;
        assert Tags - (rest - {key}) == (Tags - rest) + {key};
        keys := keys + [key];
        rest := rest - {key};
      }
      assert Tags - rest == Tags;
      sorted := SortStrings(keys);
      SortedIsListing(sorted, Tags);
    }

    /**
     * The sorted tags separated by single spaces, trimmed: no white space at
     * either end and "" for no tags. When no tag has white space at its ends
     * this is the space-joined listing (RenderedIsJoin), which splits back
     * into the set (TokensOfRendered).
     */
    method ToString() returns (r: string)
      ensures r == Rendered(Tags)
      ensures NoEdgeSpace(r)
      ensures Tags == {} ==> r == ""
    {
      var entries := Sort();
      var b := WriteEntries(entries);
      assert Tags == {} ==> b == "" by {
        assert |entries| == |Tags|;
      }
      r := TrimSpace(b);
    }
  }

  // -------------------------------------------------------------- entries

  /** The error MergeTags reports for entries that are not equal. */
  datatype MergeError = IncompatibleMerge

  /**
   * A dictionary entry. Its texts and its TagSet reference never change after
   * construction; the TagSet it points to grows when tags are merged into it.
   */
  class Entry {
    const Japanese: string
    const English: string
    const Tags: TagSet

    /** NewEntry: the texts verbatim and a fresh tag set built from `tags`. */
    constructor (jpText: string, engText: string, tags: string)
      ensures Japanese == jpText && English == engText
      ensures fresh(Tags) && Tags.Valid() && Tags.Tags == Tokens(tags)
    {
      Japanese := jpText;
      English := engText;
      Tags := new TagSet(tags);
    }

    /** The entry as one comma-separated line: Japanese, English, rendered tags. */
    method ToString() returns (r: string)
      ensures r == Japanese + "," + English + "," + Rendered(Tags.Tags)
    {
      var tagText := Tags.ToString();
      r := Japanese + "," + English + "," + tagText;
    }

    /**
     * Unions the source's tags into this entry's tag set, in place, by
     * rendering them and inserting the rendered text. Unequal entries are an
     * error and change nothing. The union is exact when no source tag has
     * white space at its ends; tags already present are absorbed.
     */
    method MergeTags(source: Entry) returns (err: Outcome<MergeError>)
      requires Tags.Valid()
      modifies Tags
      ensures Tags.Valid()
      ensures err == if EntriesAreEqual(this, source) then Pass else Fail(IncompatibleMerge)
      ensures Tags.Tags == if err.Pass? then Merged(old(Tags.Tags), old(source.Tags.Tags)) else old(Tags.Tags)
      ensures source.Tags != Tags ==> source.Tags.Tags == old(source.Tags.Tags)
    {
      if !EntriesAreEqual(this, source) {
        return Fail(IncompatibleMerge);
      }
      var sourceTags := source.Tags.ToString();
      Tags.Insert(sourceTags);
      return Pass;
    }

    /**
     * MergeTags as evidently intended: the union of the two tag sets, whatever
     * the tags contain, taken member by member instead of through the rendering.
     */
    method MergeTagSets(source: Entry) returns (err: Outcome<MergeError>)
      requires Tags.Valid() && source.Tags.Valid()
      modifies Tags
      ensures Tags.Valid()
      ensures err == if EntriesAreEqual(this, source) then Pass else Fail(IncompatibleMerge)
      ensures Tags.Tags == if err.Pass? then old(Tags.Tags) + old(source.Tags.Tags) else old(Tags.Tags)
      ensures source.Tags != Tags ==> source.Tags.Tags == old(source.Tags.Tags)
    {
      if !EntriesAreEqual(this, source) {
        return Fail(IncompatibleMerge);
      }
      var incoming := source.Tags.Tags;
      while incoming != {}
        invariant Tags.Valid()
        invariant incoming <= old(source.Tags.Tags)
        invariant Tags.Tags + incoming == old(Tags.Tags) + old(source.Tags.Tags)
        invariant source.Tags != Tags ==> source.Tags.Tags == old(source.Tags.Tags)
        decreases incoming
      {
        var tag :| tag in incoming;
        Tags.Tags := Tags.Tags + {tag};
        incoming := incoming - {tag};
      }
      return Pass;
    }
  }

  /** Equal entries have the same Japanese and the same English text; tags are ignored. */
  predicate EntriesAreEqual(e1: Entry, e2: Entry)
  {
    e1.Japanese == e2.Japanese && e1.English == e2.English
  }

  /**
   * A redefinition: one of the two texts matches and the other does not.
   * Equal entries are never redefinitions, nor are entries sharing no text.
   */
  predicate EntriesRedefined(e1: Entry, e2: Entry): (r: bool)
    ensures r <==> (e1.Japanese == e2.Japanese) != (e1.English == e2.English)
    ensures EntriesAreEqual(e1, e2) ==> !r
    ensures e1.Japanese != e2.Japanese && e1.English != e2.English ==> !r
  {
    (e1.Japanese == e2.Japanese || e1.English == e2.English) && !EntriesAreEqual(e1, e2)
  }

  /** Entry equality is an equivalence relation and does not look at the tags. */
  lemma EqualityIsEquivalence(e1: Entry, e2: Entry, e3: Entry)
    ensures EntriesAreEqual(e1, e1)
    ensures EntriesAreEqual(e1, e2) == EntriesAreEqual(e2, e1)
    ensures EntriesAreEqual(e1, e2) && EntriesAreEqual(e2, e3) ==> EntriesAreEqual(e1, e3)
    ensures e1.Japanese == e2.Japanese && e1.English == e2.English ==> EntriesAreEqual(e1, e2)
  {
  }

  // ------------------------------------------------------------- examples

  /** The empty string names no tags; repeated tags collapse. */
  lemma TokensExamples()
    ensures Tokens("") == {}
    ensures Tokens("1 1") == {"1"}
  {
    assert Split("", ' ') == [""];
    assert "1 1" == Join(["1", "1"], ' ');
    SplitJoin(["1", "1"], ' ');
  }

  /** A string with a space names two tags, so Insert adds both. */
  lemma TokensOfTwo()
    ensures Tokens("1 2") == {"1", "2"}
  {
    assert "1 2" == Join(["1", "2"], ' ');
    SplitJoin(["1", "2"], ' ');
  }

  /** Tags sort as strings, not as numbers: "1" < "10" < "2" < "verb". */
  lemma SortIsStringOrder(text: string)
    requires text == "verb 1 2 10"
    ensures Listing(Tokens(text)) == ["1", "10", "2", "verb"]
  {
    var S := {"verb", "1", "2", "10"};
    var L := ["1", "10", "2", "verb"];
    SortExampleTokens(text);
    FourListing(L, S);
    ListingUnique(L, Listing(S), S);
  }

  lemma SortExampleTokens(text: string)
    requires text == "verb 1 2 10"
    ensures Tokens(text) == {"verb", "1", "2", "10"}
  {
    var parts := ["verb", "1", "2", "10"];
    assert Join(parts, ' ') == text by {
      JoinFour("verb", "1", "2", "10");
      assert "verb" + [' '] + "1" + [' '] + "2" + [' '] + "10" == text;
    }
    SplitJoin(parts, ' ');
  }

  lemma FourListing(L: seq<string>, S: set<string>)
    requires L == ["1", "10", "2", "verb"] && S == {"verb", "1", "2", "10"}
    ensures IsListing(L, S)
  {
    assert Less("1", "10") && Less("10", "2") && Less("2", "verb");
    LessTransitive("1", "10", "2");
    LessTransitive("1", "2", "verb");
    LessTransitive("10", "2", "verb");
  }

  lemma JoinFour(a: string, b: string, c: string, d: string)
    ensures Join([a, b, c, d], ' ') == a + [' '] + b + [' '] + c + [' '] + d
  {
    assert [a, b, c, d][1..] == [b, c, d];
    JoinThree(b, c, d, ' ');
  }

  /** A set of numeric-looking tags renders in string order. */
  lemma RenderExample(S: set<string>)
    requires S == {"22", "12", "1"}
    ensures Rendered(S) == "1 12 22"
  {
    RenderExampleListing(S);
    RenderExampleTags(S);
    RenderedIsJoin(S);
    RenderExampleJoin(["1", "12", "22"]);
  }

  lemma RenderExampleListing(S: set<string>)
    requires S == {"22", "12", "1"}
    ensures Listing(S) == ["1", "12", "22"]
  {
    var L := ["1", "12", "22"];
    ThreeListing(L, S);
    ListingUnique(L, Listing(S), S);
  }

  lemma ThreeListing(L: seq<string>, S: set<string>)
    requires L == ["1", "12", "22"] && S == {"22", "12", "1"}
    ensures IsListing(L, S)
  {
    assert Less("1", "12") && Less("12", "22");
    LessTransitive("1", "12", "22");
  }

  lemma RenderExampleTags(S: set<string>)
    requires S == {"22", "12", "1"}
    ensures forall t :: t in S ==> IsTag(t)
    ensures SurvivesTrim(S)
  {
  }

  lemma RenderExampleJoin(L: seq<string>)
    requires L == ["1", "12", "22"]
    ensures Join(L, ' ') == "1 12 22"
  {
    JoinThree("1", "12", "22", ' ');
  }

  /**
   * MergeTags as written: a source tag that ends in white space reaches the
   * receiver without it, because the rendering is trimmed. Merging an entry
   * tagged {"a\t"} adds "a", not "a\t".
   */
  lemma MergeTagsLosesEdgeSpace()
    ensures Tokens(Rendered({"a\t"})) == {"a"}
    ensures Merged({}, {"a\t"}) == {"a"} != {} + {"a\t"}
  {
    var S := {"a\t"};
    var L := Listing(S);
    assert L == ["a\t"] by {
      assert |L| == 1 && L[0] in S;
    }
    assert SpaceTerminated(L) == "a\t ";
    assert TrimRight("a") == "a";
    assert TrimRight("a\t") == "a";
    assert TrimRight("a\t ") == "a";
    assert TrimLeft("a") == "a";
    SplitJoin(["a"], ' ');
  }
}
