/** Turning the upstream reply into the report text: the top-level `output_text` string
    when there is one; otherwise every `output_text` part of `output[].content[]`, in
    document order; and the serialised reply when that leaves nothing. Reading a
    property of `null` throws, which the handler turns into a 500. */
module TextExtraction {
  import opened Wrappers
  import opened JsonValues
  import opened JsRuntime

  type Outcome = Result<string, JsError>

  /** Appends the text of `next` to `sofar`, unless one of them already threw. */
  function Then(sofar: Outcome, next: Outcome): (r: Outcome)
    ensures sofar.Failure? ==> r == sofar
    ensures sofar.Success? && next.Failure? ==> r == next
    ensures sofar.Success? && next.Success? ==> r == Success(sofar.value + next.value)
  {
    if sofar.Failure? then sofar
    else if next.Failure? then next
    else Success(sofar.value + next.value)
  }

  /** The texts `f` makes of the elements of `xs`, joined in order; the first element on
      which `f` throws decides the error. */
  function Gather<T>(xs: seq<T>, f: T -> Outcome): Outcome
  {
    if xs == [] then Success("") else Then(Gather(xs[..|xs| - 1], f), f(xs[|xs| - 1]))
  }

  /** Is `part` an object whose `type` is the string "output_text"? (`===` compares
      strings by value and never equates a string with another kind of value.) */
  predicate IsOutputTextPart(part: Json)
  {
    Get(part, "type") == Some(JStr("output_text"))
  }

  /** What one content part adds: `part.text`, converted to a string, when the part is
      an `output_text` part with a truthy `text`, nothing otherwise. A `null` part throws
      on `part.type`, and a `text` that cannot be converted throws in the conversion. */
  function PartText(part: Json): Outcome
  {
    if part.JNull? then Failure(NullAccess("type"))
    else if !IsOutputTextPart(part) then Success("")
    else match Get(part, "text")
      case Some(t) => if Truthy(t) then JsToString(t) else Success("")
      case None => Success("")
  }

  /** What one output item adds: its parts' texts when `item.content` is an array,
      nothing otherwise. A `null` item throws on `item.content`. */
  function ItemText(item: Json): Outcome
  {
    if item.JNull? then Failure(NullAccess("content"))
    else match Get(item, "content")
      case Some(JArr(parts)) => Gather(parts, PartText)
      case _ => Success("")
  }

  /** The text gathered before the fallback: the `output_text` string wins, then the
      parts of an `output` array; any other reply yields the empty string. */
  function CollectedText(data: Json): Outcome
  {
    if data.JNull? then Failure(NullAccess("output_text"))
    else match Get(data, "output_text")
      case Some(JStr(s)) => Success(s)
      case _ =>
        match Get(data, "output")
        case Some(JArr(items)) => Gather(items, ItemText)
        case _ => Success("")
  }

  /** The text the handler sends back: the collected text, or `JSON.stringify(data)` when
      that is empty. It is never empty; a non-empty `output_text` string is returned as
      it is, whatever `output` holds; and an empty collection falls back to the
      serialised reply. */
  function DisplayText(data: Json): (r: Outcome)
    ensures r.Success? ==> |r.value| > 0
    ensures (exists s :: Get(data, "output_text") == Some(JStr(s)) && s != "") ==>
              r == Success(Get(data, "output_text").value.s)
    ensures CollectedText(data) == Success("") ==> r == Success(Stringify(data))
    ensures r.Failure? <==> CollectedText(data).Failure?
  {
    match CollectedText(data)
    case Failure(e) => Failure(e)
    case Success(t) => Success(if t == "" then Stringify(data) else t)
  }

  lemma ThenUnit(a: Outcome)
    ensures Then(a, Success("")) == a && Then(Success(""), a) == a
  {
    if a.Success? {
      assert a.value + "" == a.value && "" + a.value == a.value;
    }
  }

  lemma ThenAssoc(a: Outcome, b: Outcome, c: Outcome)
    ensures Then(Then(a, b), c) == Then(a, Then(b, c))
  {
    if a.Success? && b.Success? && c.Success? {
      assert (a.value + b.value) + c.value == a.value + (b.value + c.value);
    }
  }

  /** Gathering over two runs of elements is gathering over each in turn: the text of
      the whole is the text of the first run followed by the text of the second. */
  lemma {:induction false} GatherAppend<T>(xs: seq<T>, ys: seq<T>, f: T -> Outcome)
    ensures Gather(xs + ys, f) == Then(Gather(xs, f), Gather(ys, f))
    decreases |ys|
  {
    if ys == [] {
      assert xs + ys == xs;
      ThenUnit(Gather(xs, f));
    } else {
      var zs := xs + ys;
      assert zs[..|zs| - 1] == xs + ys[..|ys| - 1];
      assert zs[|zs| - 1] == ys[|ys| - 1];
      GatherAppend(xs, ys[..|ys| - 1], f);
      ThenAssoc(Gather(xs, f), Gather(ys[..|ys| - 1], f), f(ys[|ys| - 1]));
    }
  }

  /** One more element appends its text. */
  lemma GatherStep<T>(xs: seq<T>, k: nat, f: T -> Outcome)
    requires k < |xs|
    ensures Gather(xs[..k + 1], f) == Then(Gather(xs[..k], f), f(xs[k]))
  {
    assert xs[..k + 1][..k] == xs[..k];
  }

  /** Once a prefix throws, the whole run throws the same error. */
  lemma GatherFailurePersists<T>(xs: seq<T>, k: nat, f: T -> Outcome)
    requires k <= |xs| && Gather(xs[..k], f).Failure?
    ensures Gather(xs, f) == Gather(xs[..k], f)
  {
    GatherAppend(xs[..k], xs[k..], f);
    assert xs[..k] + xs[k..] == xs;
  }

  /** A run of one element gathers what that element gives. */
  lemma GatherOne<T>(x: T, f: T -> Outcome)
    ensures Gather([x], f) == f(x)
  {
    assert [x][..0] == [];
    ThenUnit(f(x));
  }

  /** Gathering throws exactly when some element throws. */
  lemma {:induction false} GatherFails<T>(xs: seq<T>, f: T -> Outcome)
    ensures Gather(xs, f).Failure? <==> exists i :: 0 <= i < |xs| && f(xs[i]).Failure?
    decreases |xs|
  {
    if xs != [] {
      var init := xs[..|xs| - 1];
      GatherFails(init, f);
      if exists i :: 0 <= i < |init| && f(init[i]).Failure? {
        var i :| 0 <= i < |init| && f(init[i]).Failure?;
        assert f(xs[i]).Failure?;
      }
      if exists i :: 0 <= i < |xs| && f(xs[i]).Failure? {
        var i :| 0 <= i < |xs| && f(xs[i]).Failure?;
        if i < |init| {
          assert f(init[i]).Failure?;
        }
      }
    }
  }

  /** A content part that is not an `output_text` part contributes nothing, wherever it
      stands among the parts. */
  lemma OtherPartIgnored(before: seq<Json>, part: Json, after: seq<Json>)
    requires !part.JNull? && !IsOutputTextPart(part)
    ensures Gather(before + [part] + after, PartText) == Gather(before + after, PartText)
  {
    GatherAppend(before + [part], after, PartText);
    GatherAppend(before, [part], PartText);
    GatherAppend(before, after, PartText);
    GatherOne(part, PartText);
    ThenUnit(Gather(before, PartText));
  }

  /** An output item whose `content` is not an array contributes nothing, wherever it
      stands among the items. */
  lemma NonArrayContentIgnored(before: seq<Json>, item: Json, after: seq<Json>)
    requires !item.JNull? && !(Get(item, "content").Some? && Get(item, "content").value.JArr?)
    ensures Gather(before + [item] + after, ItemText) == Gather(before + after, ItemText)
  {
    GatherAppend(before + [item], after, ItemText);
    GatherAppend(before, [item], ItemText);
    GatherAppend(before, after, ItemText);
    GatherOne(item, ItemText);
    ThenUnit(Gather(before, ItemText));
  }

  /** When `output_text` is not a string and `output` is an array, the collected text is
      the items' texts in order: the first items' text, then the remaining items'. */
  lemma CollectedInItemOrder(data: Json, items: seq<Json>, k: nat)
    requires !data.JNull? && !(Get(data, "output_text").Some? && Get(data, "output_text").value.JStr?)
    requires Get(data, "output") == Some(JArr(items)) && k <= |items|
    ensures CollectedText(data) == Then(Gather(items[..k], ItemText), Gather(items[k..], ItemText))
  {
    GatherAppend(items[..k], items[k..], ItemText);
    assert items[..k] + items[k..] == items;
  }

  // An independent description of the text found in `output`: flatten the parts of all
  // items, in order, and join what each part contributes.

  /** What a part contributes to the report: the string form of a truthy `text` of an
      `output_text` part, and nothing for any other part. */
  function Contribution(part: Json): string
  {
    if !IsOutputTextPart(part) then ""
    else match Get(part, "text")
      case Some(t) => if Truthy(t) && JsToString(t).Success? then JsToString(t).value else ""
      case None => ""
  }

  /** The parts of an output item: its `content` when that is an array, none otherwise. */
  function PartsOf(item: Json): seq<Json>
  {
    match Get(item, "content")
    case Some(JArr(parts)) => parts
    case _ => []
  }

  /** The parts of all items, item after item. */
  function AllParts(items: seq<Json>): seq<Json>
  {
    if items == [] then [] else PartsOf(items[0]) + AllParts(items[1..])
  }

  /** The contributions of `parts`, joined front to back. */
  function Joined(parts: seq<Json>): string
  {
    if parts == [] then "" else Contribution(parts[0]) + Joined(parts[1..])
  }

  /** A part that can be read without throwing: it is not `null`, and if it contributes
      a truthy `text`, that `text` converts to a string. */
  predicate PartReadable(part: Json)
  {
    !part.JNull? &&
    (IsOutputTextPart(part) && Get(part, "text").Some? && Truthy(Get(part, "text").value) ==>
       JsToString(Get(part, "text").value).Success?)
  }

  /** An item that can be read without throwing: it is not `null`, and each of its parts
      is readable. */
  predicate ItemReadable(item: Json)
  {
    !item.JNull? && forall j :: 0 <= j < |PartsOf(item)| ==> PartReadable(PartsOf(item)[j])
  }

  predicate AllReadable(items: seq<Json>)
  {
    forall i :: 0 <= i < |items| ==> ItemReadable(items[i])
  }

  lemma {:induction false} JoinedAppend(xs: seq<Json>, ys: seq<Json>)
    ensures Joined(xs + ys) == Joined(xs) + Joined(ys)
  {
    if xs == [] {
      assert xs + ys == ys;
    } else {
      assert (xs + ys)[0] == xs[0] && (xs + ys)[1..] == xs[1..] + ys;
      JoinedAppend(xs[1..], ys);
    }
  }

  /** Over readable parts, gathering yields the joined contributions. */
  lemma {:induction false} PartsTextIsJoined(parts: seq<Json>)
    requires forall j :: 0 <= j < |parts| ==> PartReadable(parts[j])
    ensures Gather(parts, PartText) == Success(Joined(parts))
  {
    if parts != [] {
      GatherAppend([parts[0]], parts[1..], PartText);
      assert [parts[0]] + parts[1..] == parts;
      GatherOne(parts[0], PartText);
      PartsTextIsJoined(parts[1..]);
    }
  }

  /** When every item and part is readable, the text gathered from the items is the joined
      contributions of all their parts, across items and then parts, in order. */
  lemma {:induction false} ItemsTextIsJoined(items: seq<Json>)
    requires AllReadable(items)
    ensures Gather(items, ItemText) == Success(Joined(AllParts(items)))
  {
    if items != [] {
      GatherAppend([items[0]], items[1..], ItemText);
      assert [items[0]] + items[1..] == items;
      GatherOne(items[0], ItemText);
      assert ItemReadable(items[0]);
      PartsTextIsJoined(PartsOf(items[0]));
      assert AllReadable(items[1..]) by {
        forall i | 0 <= i < |items[1..]| ensures ItemReadable(items[1..][i]) {
          assert items[1..][i] == items[i + 1];
        }
      }
      ItemsTextIsJoined(items[1..]);
      JoinedAppend(PartsOf(items[0]), AllParts(items[1..]));
    }
  }

  /** Gathering over the items throws exactly when some item, or some part of an item
      whose `content` is an array, is `null`, or such a part is an `output_text` part
      whose truthy `text` cannot be converted to a string. */
  lemma ItemsTextThrowsIff(items: seq<Json>)
    ensures Gather(items, ItemText).Failure? <==> !AllReadable(items)
  {
    GatherFails(items, ItemText);
    forall i | 0 <= i < |items|
      ensures ItemText(items[i]).Failure? <==> !ItemReadable(items[i])
    {
      if !items[i].JNull? {
        GatherFails(PartsOf(items[i]), PartText);
      }
    }
  }

  /** Text extraction over an `output` array, stated without loops: when `output_text` is
      not a string, the reply throws exactly when some item or part cannot be read
      (a `null`, or a `text` that does not convert); otherwise
      its text is every `output_text` part's text joined across items and then parts, or
      the serialised reply when that is empty. */
  lemma ExtractionFromOutput(data: Json, items: seq<Json>)
    requires !data.JNull? && !(Get(data, "output_text").Some? && Get(data, "output_text").value.JStr?)
    requires Get(data, "output") == Some(JArr(items))
    ensures DisplayText(data).Failure? <==> !AllReadable(items)
    ensures AllReadable(items) ==>
              var t := Joined(AllParts(items));
              DisplayText(data) == Success(if t == "" then Stringify(data) else t)
  {
    ItemsTextThrowsIff(items);
    if AllReadable(items) {
      ItemsTextIsJoined(items);
    }
  }

  /** An `output_text` part whose truthy `text` is an object with its own "toString"
      member, anywhere in `output`, makes extraction throw when there is no string
      `output_text`; and when every item and part before it reads cleanly, the error is
      the failed conversion. */
  lemma OwnToStringThrows(data: Json, items: seq<Json>, i: nat, j: nat)
    requires !data.JNull? && !(Get(data, "output_text").Some? && Get(data, "output_text").value.JStr?)
    requires Get(data, "output") == Some(JArr(items))
    requires i < |items| && !items[i].JNull? && j < |PartsOf(items[i])|
    requires IsOutputTextPart(PartsOf(items[i])[j])
    requires Get(PartsOf(items[i])[j], "text").Some? && Get(PartsOf(items[i])[j], "text").value.JObj?
    requires Lookup(Get(PartsOf(items[i])[j], "text").value.members, "toString").Some?
    ensures DisplayText(data).Failure?
    ensures (forall k :: 0 <= k < i ==> ItemReadable(items[k])) &&
            (forall l :: 0 <= l < j ==> PartReadable(PartsOf(items[i])[l])) ==>
              DisplayText(data) == Failure(NotPrimitive)
  {
    var parts := PartsOf(items[i]);
    assert PartText(parts[j]) == Failure(NotPrimitive);
    assert !ItemReadable(items[i]);
    ExtractionFromOutput(data, items);
    if (forall k :: 0 <= k < i ==> ItemReadable(items[k])) &&
       (forall l :: 0 <= l < j ==> PartReadable(parts[l])) {
      PartsThrowAt(parts, j);
      ItemsThrowAt(items, i);
    }
  }

  /** The first element on which `f` throws decides the error of the whole run. */
  lemma FirstFailureDecides<T>(xs: seq<T>, k: nat, f: T -> Outcome)
    requires k < |xs| && Gather(xs[..k], f).Success? && f(xs[k]).Failure?
    ensures Gather(xs, f) == f(xs[k])
  {
    GatherStep(xs, k, f);
    GatherFailurePersists(xs, k + 1, f);
  }

  lemma PartsThrowAt(parts: seq<Json>, j: nat)
    requires j < |parts| && PartText(parts[j]) == Failure(NotPrimitive)
    requires forall l :: 0 <= l < j ==> PartReadable(parts[l])
    ensures Gather(parts, PartText) == Failure(NotPrimitive)
  {
    PartsTextIsJoined(parts[..j]);
    FirstFailureDecides(parts, j, PartText);
  }

  lemma ItemsThrowAt(items: seq<Json>, i: nat)
    requires i < |items| && ItemText(items[i]) == Failure(NotPrimitive)
    requires forall k :: 0 <= k < i ==> ItemReadable(items[k])
    ensures Gather(items, ItemText) == Failure(NotPrimitive)
  {
    assert AllReadable(items[..i]);
    ItemsTextIsJoined(items[..i]);
    FirstFailureDecides(items, i, ItemText);
  }

  /** The inner loop of extraction: appends to `text` the text of every `output_text`
      part of `parts`, stopping with the error on the first part that throws. */
  method AppendPartsText(parts: seq<Json>, text: string) returns (r: Outcome)
    ensures r == Then(Success(text), Gather(parts, PartText))
  {
    var acc := text;
    assert parts[..0] == [];
    ThenUnit(Success(text));
    for j := 0 to |parts|
      invariant Then(Success(text), Gather(parts[..j], PartText)) == Success(acc)
    {
      var part := parts[j];
      GatherStep(parts, j, PartText);
      ThenAssoc(Success(text), Gather(parts[..j], PartText), PartText(part));
      if part.JNull? {
        GatherFailurePersists(parts, j + 1, PartText);
        return Failure(NullAccess("type"));
      }
      ThenUnit(Success(acc));
      if IsOutputTextPart(part) {
        var partText := Get(part, "text");
        if partText.Some? && Truthy(partText.value) {
          var converted := JsToString(partText.value);
          if converted.Failure? {
            GatherFailurePersists(parts, j + 1, PartText);
            return converted;
          }
          acc := acc + converted.value;
        }
      }
    }
    assert parts[..|parts|] == parts;
    return Success(acc);
  }

  /** Extraction as the handler runs it: a string `output_text` is taken as it is;
      otherwise the loop over `output` appends each item's parts' texts, stopping with
      the error as soon as something throws; an empty result is replaced by
      the serialised reply. */
  method ExtractText(data: Json) returns (r: Outcome)
    ensures r == DisplayText(data)
  {
    if data.JNull? {
      return Failure(NullAccess("output_text"));
    }
    var text := "";
    var outputText := Get(data, "output_text");
    if outputText.Some? && outputText.value.JStr? {
      text := outputText.value.s;
    } else {
      var output := Get(data, "output");
      if output.Some? && output.value.JArr? {
        var items := output.value.items;
        assert items[..0] == [];
        for i := 0 to |items|
          invariant Gather(items[..i], ItemText) == Success(text)
        {
          var item := items[i];
          GatherStep(items, i, ItemText);
          if item.JNull? {
            GatherFailurePersists(items, i + 1, ItemText);
            return Failure(NullAccess("content"));
          }
          var content := Get(item, "content");
          if content.Some? && content.value.JArr? {
            var appended := AppendPartsText(content.value.items, text);
            if appended.Failure? {
              GatherFailurePersists(items, i + 1, ItemText);
              return appended;
            }
            text := appended.value;
          } else {
            ThenUnit(Success(text));
          }
        }
        assert items[..|items|] == items;
      }
    }
    if text == "" {
      text := Stringify(data);
    }
    return Success(text);
  }
}
