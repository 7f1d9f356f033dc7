/** The search rule shared by the multi-select and the search-select widgets:
    the typed query is lower-cased and trimmed; a blank query keeps every
    option, otherwise an option stays when its lower-cased label contains the
    query. */
module LabelFilter {
  import Text

  /** `query.toLowerCase().trim()` */
  function Normalize(query: string): string
  {
    Text.Trim(Text.ToLower(query))
  }

  /** `label.toLowerCase().includes(term)` */
  predicate LabelMatches(caption: string, term: string)
  {
    Text.Contains(Text.ToLower(caption), term)
  }

  /** The normalised query is empty exactly when the typed query is blank. */
  lemma NormalizeEmptyIffBlank(query: string)
    ensures Normalize(query) == "" <==> Text.AllWhitespace(query)
  {
    var low := Text.ToLower(query);
    Text.TrimEmptyIffBlank(low);
    assert Text.AllWhitespace(low) <==> Text.AllWhitespace(query) by {
      forall k | 0 <= k < |query|
        ensures Text.IsWhitespace(low[k]) <==> Text.IsWhitespace(query[k])
      {
        assert low[k] == Text.LowerChar(query[k]);
      }
    }
  }
}
