/** The value test the data-structure panels apply to the number typed in
    their input box (`value && value >= 1 && value <= 999 && length < cap`). */
module UiInput {
  import opened Wrappers

  /** The largest value any panel accepts. */
  const MaxValue := 999

  /** `parseInt` of the input box: `None` stands for NaN. */
  type Parsed = Option<int>

  /** JavaScript truthiness of a parsed number: NaN and 0 are falsy. */
  predicate Truthy(v: Parsed) {
    v.Some? && v.value != 0
  }

  /** The value half of the guard, as written: truthy and in `1..999`. */
  predicate ValidValue(v: Parsed) {
    Truthy(v) && v.value >= 1 && v.value <= MaxValue
  }

  /** The full guard of a panel whose list holds `count` items and may hold
      fewer than `cap`. */
  predicate Accepts(v: Parsed, count: nat, cap: nat) {
    ValidValue(v) && count < cap
  }

  /** The truthiness test adds nothing to the range test: a value is accepted
      exactly when it is a number from 1 to 999. */
  lemma ValidValueIsRange(v: Parsed)
    ensures ValidValue(v) <==> (v.Some? && 1 <= v.value <= MaxValue)
  {
  }

  /** Every item of a panel's list lies in `1..999`. */
  ghost predicate AllValid(s: seq<int>) {
    forall k :: 0 <= k < |s| ==> 1 <= s[k] <= MaxValue
  }

  /** A panel's list as the guard keeps it: valid items, fewer than `cap`
      plus one of them. */
  ghost predicate WithinCap(s: seq<int>, cap: nat) {
    AllValid(s) && |s| <= cap
  }

  /** Appending an accepted value keeps a list within its cap. */
  lemma AppendAccepted(s: seq<int>, v: Parsed, cap: nat)
    requires WithinCap(s, cap) && Accepts(v, |s|, cap)
    ensures WithinCap(s + [v.value], cap)
  {
  }

  /** Prepending an accepted value keeps a list within its cap. */
  lemma PrependAccepted(s: seq<int>, v: Parsed, cap: nat)
    requires WithinCap(s, cap) && Accepts(v, |s|, cap)
    ensures WithinCap([v.value] + s, cap)
  {
    forall k | 0 <= k < |s| + 1
      ensures 1 <= ([v.value] + s)[k] <= MaxValue
    {
      if k > 0 {
        assert ([v.value] + s)[k] == s[k - 1];
      }
    }
  }
}
