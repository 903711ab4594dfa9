/** The Vault page: every receipt of the user, narrowed by a category choice and a
    free-text search. */
module Vault {
  import opened Sequences
  import opened Text
  import opened Receipts
  import Scan

  /** The choices of the category filter; "All" is the wildcard. */
  const FilterChoices: seq<string> :=
    ["All", "Electronics", "Appliances", "Food & Dining", "Travel", "Health", "Fashion",
     "Home & Garden", "Others"]

  /** The filter offers the wildcard and then exactly the categories a receipt is saved
      with, in the same order. */
  lemma FilterChoicesAreCategories()
    ensures FilterChoices == ["All"] + Scan.Categories
    ensures forall c :: c in FilterChoices && c != "All" ==> c in Scan.Categories
  {
  }

  /** The category stage: the wildcard keeps everything, any other choice keeps the
      receipts of exactly that category. */
  predicate InCategory(r: Receipt, selectedCategory: string) {
    selectedCategory == "All" || r.category == selectedCategory
  }

  /** The search stage's test: the lower-cased store name, when there is one, or the
      lower-cased category contains the lower-cased query. */
  predicate MatchesQuery(r: Receipt, searchQuery: string) {
    var q := ToLower(searchQuery);
    (r.storeName.Some? && Contains(ToLower(r.storeName.value), q))
    || Contains(ToLower(r.category), q)
  }

  /** A receipt stays in view when it is in the chosen category and, for a non-empty
      query, matches the query. */
  predicate InView(r: Receipt, selectedCategory: string, searchQuery: string) {
    InCategory(r, selectedCategory) && (searchQuery == "" || MatchesQuery(r, searchQuery))
  }

  /** The receipts in view, as one filter over the loaded list. */
  function VaultView(receipts: seq<Receipt>, selectedCategory: string, searchQuery: string)
    : (r: seq<Receipt>)
    ensures forall x :: x in r <==> x in receipts && InView(x, selectedCategory, searchQuery)
    ensures IsSubsequence(r, receipts)
  {
    FilterIsSubsequence(receipts, x => InView(x, selectedCategory, searchQuery));
    Filter(receipts, x => InView(x, selectedCategory, searchQuery))
  }

  /** `filterReceipts`: narrow the loaded list by category, then by the query, each stage
      only when its control is set. */
  method FilterReceipts(receipts: seq<Receipt>, selectedCategory: string, searchQuery: string)
    returns (filtered: seq<Receipt>)
    ensures filtered == VaultView(receipts, selectedCategory, searchQuery)
  {
    var inView := x => InView(x, selectedCategory, searchQuery);
    var inCategory := x => InCategory(x, selectedCategory);
    var matches := x => MatchesQuery(x, searchQuery);
    filtered := receipts;
    if selectedCategory != "All" {
      filtered := Filter(filtered, (x: Receipt) => x.category == selectedCategory);
      FilterAgree(receipts, (x: Receipt) => x.category == selectedCategory, inCategory);
    } else {
      FilterKeepsAll(receipts, inCategory);
    }
    assert filtered == Filter(receipts, inCategory);
    if searchQuery != "" {
      filtered := Filter(filtered, x => MatchesQuery(x, searchQuery));
      FilterAgree(Filter(receipts, inCategory), x => MatchesQuery(x, searchQuery), matches);
      FilterFilter(receipts, inCategory, matches, inView);
    } else {
      FilterAgree(receipts, inCategory, inView);
    }
  }

  /** With the wildcard and no query, the page shows every loaded receipt. */
  lemma ViewAllWithoutFilters(receipts: seq<Receipt>)
    ensures VaultView(receipts, "All", "") == receipts
  {
    FilterKeepsAll(receipts, x => InView(x, "All", ""));
  }

  /** With a category chosen, only receipts of exactly that category remain, and all of
      them do when there is no query. */
  lemma ViewOfCategory(receipts: seq<Receipt>, category: string, searchQuery: string)
    requires category != "All"
    ensures forall x :: x in VaultView(receipts, category, searchQuery) ==> x.category == category
    ensures searchQuery == "" ==>
              forall x :: x in receipts && x.category == category ==> x in VaultView(receipts, category, "")
  {
  }

  /** With a query, a receipt is kept exactly when its store name or its category
      contains the query at some position, ignoring ASCII case; a receipt without a
      store name can match through its category only. */
  lemma ViewOfQuery(receipts: seq<Receipt>, searchQuery: string, x: Receipt)
    requires searchQuery != "" && x in receipts
    ensures x in VaultView(receipts, "All", searchQuery) <==>
              (x.storeName.Some? && exists i :: OccursAt(ToLower(x.storeName.value), ToLower(searchQuery), i))
              || (exists i :: OccursAt(ToLower(x.category), ToLower(searchQuery), i))
    ensures x.storeName.None? ==>
              (x in VaultView(receipts, "All", searchQuery) <==> Contains(ToLower(x.category), ToLower(searchQuery)))
  {
    if x.storeName.Some? {
      ContainsAt(ToLower(x.storeName.value), ToLower(searchQuery));
    }
    ContainsAt(ToLower(x.category), ToLower(searchQuery));
  }

  /** The search ignores the case of the query's ASCII letters. */
  lemma QueryIgnoresCase(r: Receipt, searchQuery: string)
    ensures MatchesQuery(r, ToLower(searchQuery)) == MatchesQuery(r, searchQuery)
  {
    ToLowerIdempotent(searchQuery);
  }

  /** Filtering what is already in view with the same controls changes nothing. */
  lemma ViewIdempotent(receipts: seq<Receipt>, selectedCategory: string, searchQuery: string)
    ensures VaultView(VaultView(receipts, selectedCategory, searchQuery), selectedCategory, searchQuery)
            == VaultView(receipts, selectedCategory, searchQuery)
  {
    FilterIdempotent(receipts, x => InView(x, selectedCategory, searchQuery));
  }

  /** The view keeps the loaded order, so the newest purchase still comes first. */
  lemma ViewKeepsOrder(receipts: seq<Receipt>, selectedCategory: string, searchQuery: string,
                       key: Receipt -> int)
    requires SortedBy(receipts, key)
    ensures SortedBy(VaultView(receipts, selectedCategory, searchQuery), key)
  {
    SubsequenceSorted(VaultView(receipts, selectedCategory, searchQuery), receipts, key);
  }

  /** The advice under "No receipts found". */
  function EmptyStateMessage(selectedCategory: string, searchQuery: string): (advice: string)
    ensures advice == "Try adjusting your filters" <==> searchQuery != "" || selectedCategory != "All"
    ensures advice == "Start by scanning your first receipt" <==> searchQuery == "" && selectedCategory == "All"
  {
    if searchQuery != "" || selectedCategory != "All" then "Try adjusting your filters"
    else "Start by scanning your first receipt"
  }

  /** The page never suggests scanning a first receipt to a user who has receipts: with
      no filter set, the view is empty only when nothing was loaded; with a filter set,
      the advice is to adjust it. */
  lemma EmptyStateAdvice(receipts: seq<Receipt>, selectedCategory: string, searchQuery: string)
    requires VaultView(receipts, selectedCategory, searchQuery) == []
    ensures EmptyStateMessage(selectedCategory, searchQuery) == "Start by scanning your first receipt"
            <==> selectedCategory == "All" && searchQuery == ""
    ensures selectedCategory == "All" && searchQuery == "" ==> receipts == []
  {
    if selectedCategory == "All" && searchQuery == "" {
      ViewAllWithoutFilters(receipts);
    }
  }
}
