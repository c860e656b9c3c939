/**
 Which characters a cache key ignores, and what an annotation holds.
 */
module KeyLaws {
  import opened Text
  import opened CacheKey

  // ----- white space -----

  /** The white space of Unicode, by number. */
  predicate IsBlankNumber(n: int) {
    9 <= n <= 13 || 28 <= n <= 32 || n == 0x85 || n == 0xA0 || n == 0x1680 || 0x2000 <= n <= 0x200A
    || n == 0x2028 || n == 0x2029 || n == 0x202F || n == 0x205F || n == 0x3000
  }

  /** Exactly these characters leave no trace in the key, whatever stands around them. */
  lemma BlanksAreInvisible(c: char)
    ensures IsBlankNumber(c as int) <==> NormalForm([c]) == ""
    ensures IsBlankNumber(c as int) ==>
              forall a, b :: Plain(a) ==> NormalForm(a + ([c] + b)) == NormalForm(a + b)
  {
    TextStep([c]);
    assert StripComments([c]) == [c];
    assert NormalForm([c]) == (if IsSpace(c) then "" else [c]) + Compact("");
    if IsBlankNumber(c as int) {
      forall a: string, b: string | Plain(a)
        ensures NormalForm(a + ([c] + b)) == NormalForm(a + b)
      {
        BlankGoes(a, c, b);
      }
    }
  }

  lemma BlankGoes(a: string, c: char, b: string)
    requires Plain(a) && IsSpace(c)
    ensures NormalForm(a + ([c] + b)) == NormalForm(a + b)
  {
    PlainPrefix(a, [c] + b);
    PlainPrefix(a, b);
    TextStep([c] + b);
    CompactConcat(a, [c] + StripComments(b));
    CompactConcat(a, StripComments(b));
  }

  // ----- annotations -----

  function MetadataText(metadata: Metadata): string {
    JoinWith(", ", Entries(metadata))
  }

  lemma {:induction false} EntriesConcat(a: Metadata, b: Metadata)
    ensures Entries(a + b) == Entries(a) + Entries(b) && |Entries(a)| == |a|
  {
    if a == [] {
      assert a + b == b;
    } else {
      EntriesConcat(a[1..], b);
      assert (a + b)[1..] == a[1..] + b;
    }
  }

  /**
   An annotated query is the query behind a comment with each entry of the metadata, in
   order, as key and value with a colon between and commas between the entries; a runner
   that does not annotate leaves the query alone. The laws determine the whole text.
   */
  lemma AnnotationHolds(query: string, key: string, value: string, a: Metadata, b: Metadata)
    ensures AnnotateQuery(false, query, a) == query
    ensures AnnotateQuery(true, query, a) == "/* " + MetadataText(a) + " */ " + query
    ensures MetadataText([]) == "" && MetadataText([(key, value)]) == key + ": " + value
    ensures a != [] && b != [] ==> MetadataText(a + b) == MetadataText(a) + ", " + MetadataText(b)
  {
    assert Entries([(key, value)]) == [key + ": " + value];
    EntriesConcat(a, b);
    EntriesConcat(b, []);
    if a != [] && b != [] {
      JoinConcat(", ", Entries(a), Entries(b));
    }
  }
}
