/** ConfigMenuSettings: the rows clamp and the slot lists written in menu configurations ("1-3, 7"). */
module MenuSettings {
  import opened Wrappers
  import opened JavaString
  import opened JavaInt
  import opened Collections

  /** getRows: rows() clamped into 1..6. */
  function GetRows(rows: int): (r: int)
    ensures 1 <= r <= 6
    ensures 1 <= rows <= 6 ==> r == rows
    ensures rows > 6 ==> r == 6
    ensures rows < 1 ==> r == 1
  {
    var upper := if rows < 6 then rows else 6;
    if upper > 1 then upper else 1
  }

  /** The elements parseSlots reads: the text without spaces, split on ','. */
  function Elements(slots: string): seq<string>
  {
    Split(Replace(slots, " ", ""), ',')
  }

  /**
   * The slots one element stands for: "a-b" is every integer from the smaller
   * bound to the larger, split at the first '-'; anything else is one integer.
   * A side that Integer.parseInt rejects is a NumberFormatException.
   */
  function ElementSlots(element: string): Result<seq<int>>
  {
    if Contains(element, "-") then
      var split := SplitOnce(element, "-");
      match ParseInt(split[0])
      case None => Err(NumberFormat)
      case Some(first) =>
        match ParseInt(split[1])
        case None => Err(NumberFormat)
        case Some(second) =>
          if second < first then Ok(Range(second, first)) else Ok(Range(first, second))
    else
      match ParseInt(element)
      case None => Err(NumberFormat)
      case Some(v) => Ok([v])
  }

  /** The slots of a list of elements, in order, or the exception of the first failing element. */
  function SlotsOf(elements: seq<string>): Result<seq<int>>
    decreases |elements|
  {
    if elements == [] then Ok([])
    else
      match SlotsOf(elements[..|elements| - 1])
      case Err(e) => Err(e)
      case Ok(before) =>
        match ElementSlots(elements[|elements| - 1])
        case Err(e) => Err(e)
        case Ok(these) => Ok(before + these)
  }

  /** What parseSlots(slots) returns. */
  function SlotList(slots: string): Result<seq<int>>
  {
    SlotsOf(Elements(slots))
  }

  /** parseSlots. */
  method ParseSlots(slots: string) returns (r: Result<seq<int>>)
    ensures r == SlotList(slots)
  {
    var elements := Split(Replace(slots, " ", ""), ',');
    var result: seq<int> := [];
    var i := 0;
    while i < |elements|
      invariant 0 <= i <= |elements|
      invariant SlotsOf(elements[..i]) == Ok(result)
    {
      var these := ParseElement(elements[i]);
      if these.Err? {
        FailingElement(elements, i);
        return Err(NumberFormat);
      }
      SlotsOfSnoc(elements, i, result, these.value);
      result := result + these.value;
      i := i + 1;
    }
    assert elements[..i] == elements;
    r := Ok(result);
  }

  /** The body of the parseSlots loop for one element: a range is collected by counting up from the smaller bound. */
  method ParseElement(element: string) returns (r: Result<seq<int>>)
    ensures r == ElementSlots(element)
  {
    if Contains(element, "-") {
      var split := SplitOnce(element, "-");
      var parsedFirst := ParseInt(split[0]);
      if parsedFirst.None? {
        return Err(NumberFormat);
      }
      var parsedSecond := ParseInt(split[1]);
      if parsedSecond.None? {
        return Err(NumberFormat);
      }
      var first, second := parsedFirst.value, parsedSecond.value;
      if second < first {
        first, second := second, first;
      }
      var result := CountUp(first, second);
      r := Ok(result);
    } else {
      var parsed := ParseInt(element);
      if parsed.None? {
        return Err(NumberFormat);
      }
      r := Ok([parsed.value]);
    }
  }

  /** The range loop of parseSlots: `for (int i = first; i <= second; i++) result.add(i)`. */
  method CountUp(first: int, second: int) returns (result: seq<int>)
    requires first <= second
    ensures result == Range(first, second)
  {
    result := [];
    var j := first;
    while j <= second
      invariant first <= j <= second + 1
      invariant result == Range(first, j - 1)
      decreases second - j
    {
      RangeSnoc(first, j);
      result := result + [j];
      j := j + 1;
    }
  }

  /** The slots of one more element follow the slots of the elements before it. */
  lemma SlotsOfSnoc(elements: seq<string>, i: nat, before: seq<int>, these: seq<int>)
    requires i < |elements| && SlotsOf(elements[..i]) == Ok(before) && ElementSlots(elements[i]) == Ok(these)
    ensures SlotsOf(elements[..i + 1]) == Ok(before + these)
  {
    var init := elements[..i + 1];
    assert init[..i] == elements[..i] && init[i] == elements[i];
  }

  /** One element that fails to parse makes the whole list fail. */
  lemma {:induction false} FailingElement(elements: seq<string>, i: int)
    requires 0 <= i < |elements| && ElementSlots(elements[i]).Err?
    ensures SlotsOf(elements) == Err(NumberFormat)
    decreases |elements|
  {
    var init := elements[..|elements| - 1];
    if i < |elements| - 1 {
      assert init[i] == elements[i];
      FailingElement(init, i);
    } else {
      OnlyNumberFormat(init);
    }
  }

  lemma {:induction false} OnlyNumberFormat(elements: seq<string>)
    ensures SlotsOf(elements).Err? ==> SlotsOf(elements).error == NumberFormat
    decreases |elements|
  {
    if elements != [] {
      OnlyNumberFormat(elements[..|elements| - 1]);
    }
  }

  /**
   * The slots `for (int i = first; i <= second; i++)` adds, as written with an
   * int counter, in its first `passes` passes from i; `i++` wraps.
   */
  function AsWrittenRange(i: int, second: int, passes: nat): seq<int>
    requires IsInt(i)
    decreases passes
  {
    if passes == 0 || i > second then [] else [i] + AsWrittenRange(Increment(i), second, passes - 1)
  }

  /**
   * As written, a range ending at Integer.MAX_VALUE never ends: every pass adds
   * a slot, and the one after Integer.MAX_VALUE is Integer.MIN_VALUE.
   */
  lemma {:induction false} AsWrittenRangeToMaxNeverEnds(i: int, passes: nat)
    requires IsInt(i)
    ensures |AsWrittenRange(i, INT_MAX, passes)| == passes
    ensures passes >= 2 && i == INT_MAX ==> AsWrittenRange(i, INT_MAX, passes)[1] == INT_MIN
    decreases passes
  {
    if passes > 0 {
      AsWrittenRangeToMaxNeverEnds(Increment(i), passes - 1);
    }
  }

  lemma RangeSnoc(lo: int, hi: int)
    requires lo <= hi
    ensures Range(lo, hi) == Range(lo, hi - 1) + [hi]
  {
    var a, b := Range(lo, hi), Range(lo, hi - 1) + [hi];
    assert |a| == |b|;
    forall k | 0 <= k < |a| ensures a[k] == b[k] { }
  }

  /** A range "a-b" is every integer between the bounds, ascending, |a - b| + 1 of them. */
  lemma RangeElement(a: string, b: string, first: int, second: int)
    requires '-' !in a && ParseInt(a) == Some(first) && ParseInt(b) == Some(second)
    ensures var lo := if first <= second then first else second;
      var hi := if first <= second then second else first;
      && ElementSlots(a + "-" + b) == Ok(Range(lo, hi))
      && |Range(lo, hi)| == (if first <= second then second - first else first - second) + 1
      && forall k :: 0 <= k < |Range(lo, hi)| ==> Range(lo, hi)[k] == lo + k
  {
    IndexOfAfter(a, "-", b);
    var e := a + "-" + b;
    assert e[|a|..|a| + 1] == "-";
    assert e[..|a|] == a && e[|a| + 1..] == b;
  }

  /** An element without '-' is exactly its integer. */
  lemma PlainElement(e: string, v: int)
    requires '-' !in e && ParseInt(e) == Some(v)
    ensures ElementSlots(e) == Ok([v])
  {
    AbsentChar(e, '-');
  }

  /** A negative number is read as a range with an empty left side, which Integer.parseInt rejects. */
  lemma NegativeRejected(b: string)
    ensures ElementSlots("-" + b) == Err(NumberFormat)
  {
    IndexOfAfter("", "-", b);
    assert "" + "-" + b == "-" + b;
    assert SplitOnce("-" + b, "-")[0] == "";
  }

  /** Spaces do not matter: the slots of a text are those of the text with its spaces removed. */
  lemma SpacesIgnored(slots: string)
    ensures SlotList(slots) == SlotList(Replace(slots, " ", ""))
  {
    var s := Replace(slots, " ", "");
    RemovedCharIsGone(slots, ' ');
    AbsentChar(s, ' ');
    ReplaceAbsent(s, " ", "");
  }

  /** Elements are read left to right and their slots concatenated, duplicates kept. */
  lemma SlotsOfAppend(elements: seq<string>, e: string)
    ensures SlotsOf(elements + [e]) == match (SlotsOf(elements), ElementSlots(e))
      case (Ok(a), Ok(b)) => Ok(a + b)
      case (Err(x), _) => Err(x)
      case (_, Err(x)) => Err(x)
  {
    assert (elements + [e])[..|elements|] == elements;
  }

  /** A text of comma-joined elements, none holding a space or a comma and the last not empty, lists their slots. */
  lemma JoinedElements(elements: seq<string>)
    requires |elements| >= 1 && elements[|elements| - 1] != ""
    requires forall i :: 0 <= i < |elements| ==> ',' !in elements[i] && ' ' !in elements[i]
    ensures SlotList(Join(",", elements)) == SlotsOf(elements)
  {
    var s := Join(",", elements);
    JoinAvoids(elements, ',', ' ');
    AbsentChar(s, ' ');
    ReplaceAbsent(s, " ", "");
    SplitJoin(elements, ',');
  }

  /** A character that is neither the separator nor in any piece is not in the join. */
  lemma {:induction false} JoinAvoids(ps: seq<string>, sep: char, c: char)
    requires sep != c && forall i :: 0 <= i < |ps| ==> c !in ps[i]
    ensures c !in Join([sep], ps)
    decreases |ps|
  {
    if |ps| > 1 {
      JoinAvoids(ps[1..], sep, c);
    }
  }

  /** The configuration text "1-3, 7" stands for slots 1, 2, 3 and 7. */
  lemma RangeAndSlotExample()
    ensures SlotList("1-3, 7") == Ok([1, 2, 3, 7])
  {
    ExampleElements();
    ExampleSlots();
  }

  lemma ExampleElements()
    ensures Elements("1-3, 7") == ["1-3", "7"]
  {
    IndexOfAfter("1-3,", " ", "7");
    assert "1-3," + " " + "7" == "1-3, 7";
    AbsentChar("7", ' ');
    ReplaceAbsent("7", " ", "");
    assert Replace("1-3, 7", " ", "") == "1-3,7";
    assert Join(",", ["1-3", "7"]) == "1-3,7";
    SplitJoin(["1-3", "7"], ',');
  }

  lemma ExampleSlots()
    ensures SlotsOf(["1-3", "7"]) == Ok([1, 2, 3, 7])
  {
    assert ParseInt("1") == Some(1) && ParseInt("3") == Some(3) && ParseInt("7") == Some(7);
    RangeElement("1", "3", 1, 3);
    assert "1" + "-" + "3" == "1-3";
    PlainElement("7", 7);
    assert Range(1, 3) == [1, 2, 3];
    assert ElementSlots("1-3") == Ok([1, 2, 3]);
    assert ElementSlots("7") == Ok([7]);
    SlotsOfAppend([], "1-3");
    assert [] + ["1-3"] == ["1-3"];
    assert SlotsOf(["1-3"]) == Ok([] + [1, 2, 3]);
    SlotsOfAppend(["1-3"], "7");
    assert ["1-3"] + ["7"] == ["1-3", "7"];
    assert [] + [1, 2, 3] + [7] == [1, 2, 3, 7];
  }

  /** The slot set getDynamicSlots gives an id: every slot of every spec listed for it. */
  function SlotUnion(specs: set<string>): set<int>
  {
    set s, v | s in specs && SlotList(s).Ok? && v in SlotList(s).value :: v
  }

  lemma UnionAdd(specs: set<string>, s: string)
    requires SlotList(s).Ok?
    ensures SlotUnion(specs + {s}) == SlotUnion(specs) + set v | v in SlotList(s).value
  {
    forall v | v in SlotUnion(specs + {s})
      ensures v in SlotUnion(specs) + set v | v in SlotList(s).value
    {
      var t :| t in specs + {s} && SlotList(t).Ok? && v in SlotList(t).value;
      if t != s {
        assert t in specs;
      }
    }
    forall v | v in SlotList(s).value
      ensures v in SlotUnion(specs + {s})
    {
      assert s in specs + {s};
    }
    forall v | v in SlotUnion(specs)
      ensures v in SlotUnion(specs + {s})
    {
      var t :| t in specs && SlotList(t).Ok? && v in SlotList(t).value;
      assert t in specs + {s};
    }
  }

  /** Whether some spec of some id fails to parse, which makes getDynamicSlots throw. */
  predicate AnyFailing(dynamic: map<string, set<string>>)
  {
    exists id, s :: id in dynamic && s in dynamic[id] && SlotList(s).Err?
  }

  /**
   * getDynamicSlots: each id maps to the union of the slot lists of its
   * specs; any spec that fails to parse makes the whole call throw.
   */
  method GetDynamicSlots(dynamic: map<string, set<string>>) returns (r: Result<map<string, set<int>>>)
    ensures r.Err? <==> AnyFailing(dynamic)
    ensures r.Err? ==> r.error == NumberFormat
    ensures r.Ok? ==> r.value.Keys == dynamic.Keys && forall id :: id in dynamic ==> r.value[id] == SlotUnion(dynamic[id])
  {
    var result: map<string, set<int>> := map[];
    var todo := dynamic.Keys;
    while todo != {}
      invariant todo <= dynamic.Keys
      invariant result.Keys == dynamic.Keys - todo
      invariant forall id :: id in result ==> result[id] == SlotUnion(dynamic[id])
      invariant forall id, s :: id in dynamic && id !in todo && s in dynamic[id] ==> SlotList(s).Ok?
      decreases todo
    {
      var id :| id in todo;
      var slotsSet := dynamic[id];
      var acc: set<int> := {};
      var left := slotsSet;
      while left != {}
        invariant left <= slotsSet
        invariant forall s :: s in slotsSet - left ==> SlotList(s).Ok?
        invariant acc == SlotUnion(slotsSet - left)
        decreases left
      {
        var slots :| slots in left;
        var parsed := ParseSlots(slots);
        if parsed.Err? {
          return Err(NumberFormat);
        }
        UnionAdd(slotsSet - left, slots);
        assert (slotsSet - left) + {slots} == slotsSet - (left - {slots});
        acc := acc + set v | v in parsed.value;
        left := left - {slots};
      }
      assert slotsSet - left == slotsSet;
      result := result[id := acc];
      todo := todo - {id};
    }
    r := Ok(result);
  }
}
