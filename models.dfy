/** `list_available_gemini_models` and `choose_gemini_model`: which Gemini model
    the run uses. The provider's listing is an input. */
module ModelSelection {
  import opened Wrappers
  import opened Text

  /** One entry of the provider's model listing. A missing or `None` name reads as
      "", and missing or `None` generation methods read as the empty list: the source
      treats those exactly like the empty values. */
  datatype ModelInfo = ModelInfo(name: string, methods: seq<string>)

  /** What `genai.list_models()` yields, or an exception raised while configuring
      the client or iterating over the listing. */
  datatype Listing = Listed(models: seq<ModelInfo>) | ListingRaised

  const AutoRecommended: string := "Auto (recommended)"
  const DefaultModel: string := "gemini-1.5-pro"
  /** Newest and fastest first. */
  const Priority: seq<string> := [
    "gemini-2.5-flash",
    "gemini-2.5-pro",
    "gemini-2.0-flash",
    "gemini-2.0-pro",
    "gemini-1.5-pro",
    "gemini-1.5-flash"
  ]

  /** A listed model is kept when it supports content generation and has a name. */
  predicate Kept(m: ModelInfo) {
    ("generateContent" in m.methods || "createContent" in m.methods) && m.name != ""
  }

  /** The short names of the kept models, in listing order. */
  function KeptNames(models: seq<ModelInfo>): seq<string>
    decreases |models|
  {
    if models == [] then []
    else
      var last := models[|models| - 1];
      KeptNames(models[..|models| - 1]) + (if Kept(last) then [LastSegment(last.name)] else [])
  }

  /** The names the listing step returns: none at all when the listing raised. */
  function AvailableNames(listing: Listing): seq<string> {
    match listing
    case ListingRaised => []
    case Listed(models) => KeptNames(models)
  }

  /** A name is listed exactly when it is the short name of some kept model. */
  lemma {:induction false} KeptNamesMembership(models: seq<ModelInfo>, x: string)
    ensures x in KeptNames(models) <==> exists m :: m in models && Kept(m) && x == LastSegment(m.name)
    decreases |models|
  {
    if models != [] {
      var init := models[..|models| - 1];
      var last := models[|models| - 1];
      KeptNamesMembership(init, x);
      assert models == init + [last];
      if x in KeptNames(models) && x !in KeptNames(init) {
        assert last in models;
      }
    }
  }

  /** Listing order is kept: the names of two consecutive stretches of the listing are
      the names of the first followed by the names of the second. */
  lemma {:induction false} KeptNamesAppend(a: seq<ModelInfo>, b: seq<ModelInfo>)
    ensures KeptNames(a + b) == KeptNames(a) + KeptNames(b)
    decreases |b|
  {
    if b == [] {
      assert a + b == a;
    } else {
      var init := b[..|b| - 1];
      assert (a + b)[..|a + b| - 1] == a + init;
      KeptNamesAppend(a, init);
    }
  }

  /** The source's loop over the listing, appending the short name of each kept model. */
  method ListAvailableModels(listing: Listing) returns (names: seq<string>)
    ensures names == AvailableNames(listing)
    ensures listing.ListingRaised? ==> names == []
  {
    if listing.ListingRaised? {
      return [];
    }
    var models := listing.models;
    names := [];
    for k := 0 to |models|
      invariant names == KeptNames(models[..k])
    {
      assert models[..k + 1][..k] == models[..k];
      var m := models[k];
      if "generateContent" in m.methods || "createContent" in m.methods {
        var name := m.name;
        if name != "" {
          names := names + [LastSegment(name)];
        }
      }
    }
    assert models[..|models|] == models;
  }

  /** `any(pid in a for a in available)`. */
  function AnyContains(available: seq<string>, pid: string): (b: bool)
    ensures b <==> exists a :: a in available && Contains(a, pid)
    decreases |available|
  {
    if available == [] then false
    else
      assert forall a :: a in available <==> a == available[0] || a in available[1..];
      if Contains(available[0], pid) then
        assert available[0] in available;
        true
      else
        AnyContains(available[1..], pid)
  }

  /** `next(a for a in available if pid in a)`, by index, searching from `from` on. */
  function FirstContaining(available: seq<string>, pid: string, from: nat): (r: Option<nat>)
    requires from <= |available|
    ensures r.Some? ==> from <= r.value < |available| && Contains(available[r.value], pid)
    ensures r.Some? ==> forall j :: from <= j < r.value ==> !Contains(available[j], pid)
    ensures r.None? ==> forall j :: from <= j < |available| ==> !Contains(available[j], pid)
    decreases |available| - from
  {
    if from == |available| then None
    else if Contains(available[from], pid) then Some(from)
    else FirstContaining(available, pid, from + 1)
  }

  /** The Auto choice over the priority ids `prio`: the first available name that
      contains the first id some available name contains; the default when no id
      matches. The result is always an available name or the default. */
  function AutoPick(prio: seq<string>, available: seq<string>): (r: string)
    ensures r in available || r == DefaultModel
    decreases |prio|
  {
    if prio == [] then DefaultModel
    else
      match FirstContaining(available, prio[0], 0)
      case Some(j) => available[j]
      case None => AutoPick(prio[1..], available)
  }

  /** When id `prio[k]` is the first id that some available name contains, and
      `available[j]` is the first name containing it, Auto picks `available[j]`. */
  lemma {:induction false} AutoPickEarliest(prio: seq<string>, available: seq<string>, k: nat, j: nat)
    requires k < |prio| && j < |available|
    requires Contains(available[j], prio[k])
    requires forall i :: 0 <= i < j ==> !Contains(available[i], prio[k])
    requires forall p, a :: 0 <= p < k && a in available ==> !Contains(a, prio[p])
    ensures AutoPick(prio, available) == available[j]
    decreases k
  {
    var first := FirstContaining(available, prio[0], 0);
    if k == 0 {
      assert first.Some? && first.value == j;
    } else {
      AutoPickEarliest(prio[1..], available, k - 1, j);
    }
  }

  /** When no priority id occurs in any available name, Auto picks the default. */
  lemma {:induction false} AutoPickFallback(prio: seq<string>, available: seq<string>)
    requires forall p, a :: 0 <= p < |prio| && a in available ==> !Contains(a, prio[p])
    ensures AutoPick(prio, available) == DefaultModel
    decreases |prio|
  {
    if prio != [] {
      var first := FirstContaining(available, prio[0], 0);
      AutoPickFallback(prio[1..], available);
    }
  }

  /** `choose_gemini_model`: an explicit choice passes through; in Auto mode the
      listing is consulted and the priority ids are tried in order. */
  method ChooseModel(choice: string, listing: Listing) returns (model: string)
    ensures choice != AutoRecommended ==> model == choice
    ensures choice == AutoRecommended ==> model == AutoPick(Priority, AvailableNames(listing))
    ensures choice == AutoRecommended ==> model in AvailableNames(listing) || model == DefaultModel
  {
    if choice != AutoRecommended {
      return choice;
    }
    var available := ListAvailableModels(listing);
    for i := 0 to |Priority|
      invariant AutoPick(Priority[i..], available) == AutoPick(Priority, available)
    {
      var pid := Priority[i];
      assert Priority[i..][0] == pid && Priority[i..][1..] == Priority[i + 1..];
      if AnyContains(available, pid) {
        var first := FirstContaining(available, pid, 0);
        return available[first.value];
      }
    }
    return DefaultModel;
  }

  /** Two models with qualified names `prefix/a` and `prefix/b` that support
      generateContent are listed as `a` and `b`, in that order. */
  lemma ListingQualified(prefix: string, a: string, b: string)
    requires '/' !in a && '/' !in b
    ensures AvailableNames(Listed([ModelInfo(prefix + "/" + a, ["generateContent"]),
                                   ModelInfo(prefix + "/" + b, ["generateContent"])])) == [a, b]
  {
    var m1 := ModelInfo(prefix + "/" + a, ["generateContent"]);
    var m2 := ModelInfo(prefix + "/" + b, ["generateContent"]);
    LastSegmentOfQualified(prefix, a);
    LastSegmentOfQualified(prefix, b);
    assert Kept(m1) && Kept(m2);
    assert [m1, m2][..1] == [m1];
    assert KeptNames([m1]) == [a];
  }

  /** With "models/gemini-2.5-flash-001" and "models/gemini-1.5-pro" listed (any
      prefix will do), Auto mode picks "gemini-2.5-flash-001". */
  lemma AutoPickExample(prefix: string, a: string, b: string)
    requires a == "gemini-2.5-flash-001" && b == "gemini-1.5-pro"
    ensures AutoPick(Priority, AvailableNames(Listed([ModelInfo(prefix + "/" + a, ["generateContent"]),
                                                      ModelInfo(prefix + "/" + b, ["generateContent"])]))) == a
  {
    ListingQualified(prefix, a, b);
    assert Priority[0] <= a;
    AutoPickEarliest(Priority, [a, b], 0, 0);
  }
}
