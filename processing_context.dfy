/**
 * The per-run processing context: a registry of read categories (labels are
 * assigned dense indices in order of first registration) and the number of
 * records over which library metrics are calculated.
 *
 * `Registered` is the registry's change as a function on name lists; the lemmas
 * show that a name gets the index of its first registration, that registering
 * is idempotent, that labels stay distinct and that earlier indices never move.
 */
module ProcessingContext {
  import opened Optional

  /** A Java `long`. */
  newtype Long = x: int | -0x8000_0000_0000_0000 <= x < 0x8000_0000_0000_0000

  /** `Long.MAX_VALUE`. */
  const LongMaxValue: Long := 0x7FFF_FFFF_FFFF_FFFF

  /** No name occurs twice. */
  predicate Distinct(labels: seq<string>)
  {
    forall i, j | 0 <= i < j < |labels| :: labels[i] != labels[j]
  }

  /** The index of the first occurrence of `name`, or -1 when it does not occur (`List.indexOf`). */
  function IndexOf(labels: seq<string>, name: string): (r: int)
    ensures r < 0 <==> name !in labels
    ensures r < 0 ==> r == -1
    ensures 0 <= r ==> r < |labels| && labels[r] == name && forall j | 0 <= j < r :: labels[j] != name
  {
    if labels == [] then -1
    else if labels[0] == name then 0
    else
      var i := IndexOf(labels[1..], name);
      if i < 0 then -1 else i + 1
  }

  /** The name list after registering `name`: unchanged when present, extended at the end otherwise. */
  function Registered(labels: seq<string>, name: string): seq<string>
  {
    if IndexOf(labels, name) < 0 then labels + [name] else labels
  }

  /** The index `registerCategory` returns: the existing index, or the old size for a new name. */
  function RegisteredIndex(labels: seq<string>, name: string): nat
  {
    var offset := IndexOf(labels, name);
    if offset < 0 then |labels| else offset
  }

  /** A name already registered keeps its index and the list does not grow. */
  lemma RegisterExisting(labels: seq<string>, name: string)
    requires name in labels
    ensures Registered(labels, name) == labels
    ensures labels[RegisteredIndex(labels, name)] == name
    ensures forall j | 0 <= j < RegisteredIndex(labels, name) :: labels[j] != name
  {
  }

  /** A new name is appended at the end and gets the old size as its index. */
  lemma RegisterNew(labels: seq<string>, name: string)
    requires name !in labels
    ensures Registered(labels, name) == labels + [name]
    ensures RegisteredIndex(labels, name) == |labels|
  {
  }

  /** The registered index names the name in the new list, and is its first occurrence there. */
  lemma RegisterRoundTrip(labels: seq<string>, name: string)
    ensures var labels' := Registered(labels, name);
            var i := RegisteredIndex(labels, name);
            && i < |labels'| && labels'[i] == name
            && IndexOf(labels', name) == i
  {
    var labels' := Registered(labels, name);
    var i := RegisteredIndex(labels, name);
    if name !in labels {
      assert labels'[|labels|] == name;
    }
    assert labels'[i] == name;
  }

  /** Registering the same name twice gives the same index and leaves the list (and its size) as after once. */
  lemma RegisterIdempotent(labels: seq<string>, name: string)
    ensures var labels' := Registered(labels, name);
            && Registered(labels', name) == labels'
            && RegisteredIndex(labels', name) == RegisteredIndex(labels, name)
  {
    RegisterRoundTrip(labels, name);
  }

  /** Registering keeps every earlier name at its index, so indices handed out before stay valid. */
  lemma RegisterKeepsIndices(labels: seq<string>, name: string)
    ensures var labels' := Registered(labels, name);
            && |labels| <= |labels'| <= |labels| + 1
            && labels'[..|labels|] == labels
            && forall other | other in labels :: IndexOf(labels', other) == IndexOf(labels, other)
  {
    var labels' := Registered(labels, name);
    assert labels'[..|labels|] == labels;
    forall other | other in labels
      ensures IndexOf(labels', other) == IndexOf(labels, other)
    {
      var i := IndexOf(labels, other);
      assert labels'[i] == other;
    }
  }

  /** Registering never introduces a duplicate name. */
  lemma RegisterKeepsDistinct(labels: seq<string>, name: string)
    requires Distinct(labels)
    ensures Distinct(Registered(labels, name))
  {
    var labels' := Registered(labels, name);
    if name !in labels {
      forall i, j | 0 <= i < j < |labels'|
        ensures labels'[i] != labels'[j]
      {
        if j == |labels| {
          assert labels'[i] == labels[i];
          assert labels[i] in labels;
        }
      }
    }
  }

  /** A list without duplicates holds as many names as it is long. */
  lemma {:induction false} DistinctCount(labels: seq<string>)
    ensures Distinct(labels) ==> |set i | 0 <= i < |labels| :: labels[i]| == |labels|
  {
    if labels != [] && Distinct(labels) {
      var rest := labels[1..];
      DistinctCount(rest);
      var names := set i | 0 <= i < |labels| :: labels[i];
      var restNames := set i | 0 <= i < |rest| :: rest[i];
      assert names == restNames + {labels[0]} by {
        forall x | x in names ensures x in restNames + {labels[0]} {
          var i :| 0 <= i < |labels| && labels[i] == x;
          if i > 0 { assert rest[i - 1] == x; }
        }
        forall x | x in restNames ensures x in names {
          var i :| 0 <= i < |rest| && rest[i] == x;
          assert labels[i + 1] == x;
        }
      }
      assert labels[0] !in restNames by {
        forall i | 0 <= i < |rest| ensures rest[i] != labels[0] {
          assert rest[i] == labels[i + 1];
        }
      }
    }
  }

  /** In a list without duplicates, every name's index is its only position. */
  lemma DistinctIndex(labels: seq<string>, i: nat)
    requires Distinct(labels) && i < |labels|
    ensures IndexOf(labels, labels[i]) == i
  {
  }

  class ProcessingContext {
    var categories: seq<string>
    var calculateMetricsRecordCount: Long

    /** The registry holds each name once. */
    predicate Valid()
      reads this
    {
      Distinct(categories)
    }

    /** A fresh context: no categories, and metrics calculated over every record. */
    constructor ()
      ensures Valid()
      ensures categories == [] && calculateMetricsRecordCount == LongMaxValue
    {
      categories := [];
      calculateMetricsRecordCount := LongMaxValue;
    }

    function GetCalculateMetricsRecordCount(): (n: Long)
      reads this
      ensures n == calculateMetricsRecordCount
    {
      calculateMetricsRecordCount
    }

    /** Sets the record count; nothing else changes. */
    method SetCalculateMetricsRecordCount(n: Long)
      modifies this`calculateMetricsRecordCount
      ensures calculateMetricsRecordCount == n
      ensures GetCalculateMetricsRecordCount() == n
    {
      calculateMetricsRecordCount := n;
    }

    /**
     * Returns the index of `name`, registering it at the end of the category list
     * first when it is new.
     */
    method RegisterCategory(name: string) returns (offset: nat)
      requires Valid()
      modifies this`categories
      ensures Valid()
      ensures categories == Registered(old(categories), name)
      ensures offset == RegisteredIndex(old(categories), name)
      ensures GetCategoryLabel(offset) == Some(name)
    {
      var found := IndexOf(categories, name);
      RegisterKeepsDistinct(categories, name);
      RegisterRoundTrip(categories, name);
      if found < 0 {
        categories := categories + [name];
        offset := |categories| - 1;
      } else {
        offset := found;
      }
    }

    /** The number of categories registered. */
    function GetCategoryCount(): (n: nat)
      reads this
      ensures n == |categories|
      ensures Valid() ==> n == |set i | 0 <= i < |categories| :: categories[i]|
    {
      DistinctCount(categories);
      |categories|
    }

    /**
     * The name registered at `category`; `None` where the list lookup would throw.
     * In a consistent registry the name found is the one whose registration returned `category`.
     */
    function GetCategoryLabel(category: int): (r: Option<string>)
      reads this
      ensures r.Some? <==> 0 <= category < GetCategoryCount()
      ensures r.Some? ==> r.value == categories[category]
      ensures Valid() && r.Some? ==> RegisteredIndex(categories, r.value) == category
    {
      if 0 <= category < |categories| then
        if Valid() then DistinctIndex(categories, category); Some(categories[category])
        else Some(categories[category])
      else None
    }

    /** In a consistent registry, the name at an index registers back to that index without change. */
    lemma LabelRegistersBack(category: nat)
      requires Valid() && category < |categories|
      ensures var name := GetCategoryLabel(category).value;
              Registered(categories, name) == categories && RegisteredIndex(categories, name) == category
    {
      DistinctIndex(categories, category);
    }
  }
}
