/** The AI completion manager (src/ai/mod.rs): the selected model held in one
    shared cell, the request that turns it into a wire name, the bounded queue
    of completed responses and the background worker that drains it.

    The reader/writer lock and the channel are modelled sequentially: the
    manager is one object whose `model` field is the lock-guarded cell and
    whose `queue` field is the channel's buffer. A blocking send becomes the
    precondition that the buffer is not full, and one turn of the worker's
    `while let` loop becomes `WorkerStep`. */
module Ai {
  import opened Wrappers
  import Text

  /** Which inference model to address. */
  datatype ModelType = Default | Custom(id: string)

  /** Capacity of the channel between the manager and its worker. */
  const QueueCapacity: nat := 100

  /** Texts shorter than this many bytes select the default model. */
  const ShortTextBytes: nat := 100

  // ---------------------------------------------------------------------
  // Byte length of a Rust `&str`

  /** Number of bytes of the UTF-8 encoding of one Unicode scalar value. */
  function CharUtf8Len(c: char): (n: nat)
    ensures 1 <= n <= 4
    ensures n == 1 <==> c as int < 0x80
  {
    if c as int < 0x80 then 1
    else if c as int < 0x800 then 2
    else if c as int < 0x1_0000 then 3
    else 4
  }

  /** `str::len`: the length of the UTF-8 encoding, in bytes. */
  function Utf8Len(s: string): nat {
    if s == [] then 0 else CharUtf8Len(s[0]) + Utf8Len(s[1..])
  }

  /** Each character takes between one and four bytes. */
  lemma {:induction false} Utf8LenBounds(s: string)
    ensures |s| <= Utf8Len(s) <= 4 * |s|
  {
    if s != [] {
      Utf8LenBounds(s[1..]);
    }
  }

  /** The byte length equals the character count exactly for ASCII text. */
  lemma {:induction false} Utf8LenAscii(s: string)
    ensures Utf8Len(s) == |s| <==> forall i :: 0 <= i < |s| ==> s[i] as int < 0x80
  {
    if s != [] {
      Utf8LenAscii(s[1..]);
      Utf8LenBounds(s[1..]);
      assert forall i :: 1 <= i < |s| ==> s[i] == s[1..][i - 1];
    }
  }

  // ---------------------------------------------------------------------
  // Model selection

  /** The length heuristic of `auto_select_model`, with its three branches. */
  function SelectModel(text: string): (m: ModelType)
    ensures m == Default || m == Custom(text)
  {
    if Utf8Len(text) < ShortTextBytes then Default
    else if '\n' in text then Custom(text)
    else Custom(text)
  }

  /** Both non-short branches build the same value: the newline test has no
      effect, and the selection depends only on the byte length. */
  lemma SelectModelIgnoresNewlines(text: string)
    ensures SelectModel(text) == Default <==> Utf8Len(text) < ShortTextBytes
    ensures Utf8Len(text) >= ShortTextBytes ==> SelectModel(text) == Custom(text)
  {
  }

  /** Any text of fewer than 25 characters is short, whatever its characters. */
  lemma ShortTextSelectsDefault(text: string)
    requires 4 * |text| < ShortTextBytes
    ensures SelectModel(text) == Default
  {
    Utf8LenBounds(text);
  }

  /** Any text of at least 100 characters is long. */
  lemma LongTextSelectsCustom(text: string)
    requires |text| >= ShortTextBytes
    ensures SelectModel(text) == Custom(text)
  {
    Utf8LenBounds(text);
  }

  /** The threshold is on bytes, not characters: 50 two-byte characters are
      already a long text. */
  lemma {:induction false} TwoByteTextLength(text: string)
    requires forall i :: 0 <= i < |text| ==> 0x80 <= text[i] as int < 0x800
    ensures Utf8Len(text) == 2 * |text|
  {
    if text != [] {
      assert forall i :: 0 <= i < |text| - 1 ==> text[1..][i] == text[i + 1];
      TwoByteTextLength(text[1..]);
    }
  }

  lemma MultiByteTextSelectsCustom(text: string)
    requires |text| >= 50
    requires forall i :: 0 <= i < |text| ==> 0x80 <= text[i] as int < 0x800
    ensures SelectModel(text) == Custom(text)
  {
    TwoByteTextLength(text);
  }

  /** The model cell after a series of `auto_select_model` calls: each call
      replaces the cell wholesale. */
  function ApplySelections(m: ModelType, texts: seq<string>): ModelType
    decreases |texts|
  {
    if texts == [] then m else ApplySelections(SelectModel(texts[0]), texts[1..])
  }

  /** The last selection wins, and earlier ones leave no trace. */
  lemma {:induction false} LastSelectionWins(m: ModelType, texts: seq<string>)
    ensures texts == [] ==> ApplySelections(m, texts) == m
    ensures texts != [] ==> ApplySelections(m, texts) == SelectModel(texts[|texts| - 1])
    ensures forall t :: ApplySelections(m, [t, t]) == ApplySelections(m, [t]) == SelectModel(t)
    decreases |texts|
  {
    if |texts| > 1 {
      LastSelectionWins(SelectModel(texts[0]), texts[1..]);
    }
  }

  // ---------------------------------------------------------------------
  // Requests

  /** The `model` field of the request body. */
  function ModelName(m: ModelType): string {
    match m
    case Default => "default"
    case Custom(id) => id
  }

  /** The JSON body posted to the provider. */
  datatype Request = Request(prompt: string, model: string)

  function BuildRequest(text: string, m: ModelType): (r: Request)
    ensures r.prompt == text
    ensures m.Default? ==> r.model == "default"
    ensures m.Custom? ==> r.model == m.id
    ensures r.model == "default" <==> (m.Default? || m == Custom("default"))
  {
    Request(text, ModelName(m))
  }

  /** `Custom("default")` would reach the provider under the same name as
      `Default`, but the selector never produces it: on what the selector can
      produce, the wire name determines the model. */
  lemma SelectedModelNameInjective(t1: string, t2: string)
    ensures ModelName(SelectModel(t1)) == ModelName(SelectModel(t2)) <==> SelectModel(t1) == SelectModel(t2)
  {
    var d := "default";
    assert Utf8Len(d) == 7 by {
      Utf8LenAscii(d);
    }
  }

  /** Failures of the provider call: at `send` or at reading the body. */
  datatype Error = SendFailed(reason: string) | BodyReadFailed(reason: string)

  /** The HTTP round trip to the inference service, as an oracle. */
  type Provider = Request -> Result<string, Error>

  // ---------------------------------------------------------------------
  // Background processing

  /** What the worker did with one queued response: the text, the model read
      when it was dequeued, and the outcome of `process_completion`, whose
      success value is the line it prints. */
  datatype Processed = Processed(text: string, model: ModelType, outcome: Result<string, Error>)

  const DefaultPrefix: string := "Processing with default model: "
  const CustomPrefix: string := "Processing with custom model "

  /** `process_completion`: prints a line naming the model and never fails. */
  function ProcessCompletion(text: string, m: ModelType): (r: Result<string, Error>)
    ensures r.Ok?
    ensures Text.IsSuffix(text, r.value)
    ensures Text.IsPrefix("Processing with default", r.value) <==> m.Default?
  {
    match m
    case Default => Ok(DefaultPrefix + text)
    case Custom(id) =>
      var line := CustomPrefix + id + ": " + text;
      assert line[16] == 'c' != "Processing with default"[16];
      Ok(line)
  }

  function Tag(text: string, m: ModelType): Processed {
    Processed(text, m, ProcessCompletion(text, m))
  }

  /** Every item processed in order under one model; since processing
      never fails, every outcome is a success whose line ends with the item. */
  function TagAll(items: seq<string>, m: ModelType): (ps: seq<Processed>)
    ensures |ps| == |items|
    ensures forall i :: 0 <= i < |items| ==> ps[i] == Tag(items[i], m)
    ensures forall i :: 0 <= i < |ps| ==>
      ps[i].outcome.Ok? && Text.IsSuffix(items[i], ps[i].outcome.value)
  {
    seq(|items|, i requires 0 <= i < |items| => Tag(items[i], m))
  }

  // ---------------------------------------------------------------------
  // The manager

  class AIManager {
    /** The lock-guarded model cell. */
    var model: ModelType
    /** Responses sent to the worker and not yet received, oldest first. */
    var queue: seq<string>
    /** What the worker has processed so far, in order. */
    var processed: seq<Processed>

    ghost predicate Valid()
      reads this
    {
      |queue| <= QueueCapacity
    }

    /** `AIManager::new`: the default model and an empty channel. */
    constructor ()
      ensures Valid()
      ensures model == Default && queue == [] && processed == []
    {
      model := Default;
      queue := [];
      processed := [];
    }

    /** `auto_select_model`: overwrites the model cell and nothing else. */
    method AutoSelectModel(text: string)
      modifies this`model
      ensures model == SelectModel(text)
    {
      var selected: ModelType;
      if Utf8Len(text) < ShortTextBytes {
        selected := Default;
      } else if '\n' in text {
        selected := Custom(text);
      } else {
        selected := Custom(text);
      }
      model := selected;
    }

    /** `request_completion`: posts the prompt under the current model's name;
        on success the response goes to the back of the queue and is returned,
        on failure the error is returned and nothing is queued. */
    method RequestCompletion(text: string, provider: Provider) returns (r: Result<string, Error>)
      requires Valid() && |queue| < QueueCapacity
      modifies this`queue
      ensures Valid()
      ensures r == provider(Request(text, ModelName(model)))
      ensures r.Ok? ==> queue == old(queue) + [r.value]
      ensures r.Err? ==> queue == old(queue)
    {
      var request := BuildRequest(text, model);
      var response := provider(request);
      match response {
        case Err(e) =>
          r := Err(e);
        case Ok(body) =>
          queue := queue + [body];
          r := Ok(body);
      }
    }

    /** One turn of the worker loop: receive the oldest response, read the
        model cell at that moment, and process. An empty queue means the
        worker would wait; nothing happens. */
    method WorkerStep() returns (item: Option<Processed>)
      requires Valid()
      modifies this`queue, this`processed
      ensures Valid()
      ensures old(queue) == [] ==> item == None && queue == [] && processed == old(processed)
      ensures old(queue) != [] ==>
        && item == Some(Tag(old(queue)[0], model))
        && queue == old(queue)[1..]
        && processed == old(processed) + [item.value]
    {
      if queue == [] {
        item := None;
      } else {
        var text := queue[0];
        queue := queue[1..];
        var current := model;
        var outcome := ProcessCompletion(text, current);
        var p := Processed(text, current, outcome);
        processed := processed + [p];
        item := Some(p);
      }
    }

    /** The worker loop run until the queue is empty: every queued response is
        processed exactly once, front first, and since `process_completion`
        never fails no item stops the loop. */
    method RunWorker()
      requires Valid()
      modifies this`queue, this`processed
      ensures Valid()
      ensures queue == []
      ensures processed == old(processed) + TagAll(old(queue), model)
    {
      ghost var pending := queue;
      ghost var done := processed;
      var k := 0;
      while queue != []
        invariant Valid()
        invariant 0 <= k <= |pending|
        invariant queue == pending[k..]
        invariant processed == done + TagAll(pending[..k], model)
        decreases |queue|
      {
        var item := WorkerStep();
        assert pending[..k + 1] == pending[..k] + [pending[k]];
        k := k + 1;
      }
      assert pending[..k] == pending;
    }
  }

  /** The worker tags a response with the model current when it dequeues the
      response, not the one the request was made with. */
  method TagsAtDequeueTime(provider: Provider, short: string, long: string) returns (item: Option<Processed>)
    requires Utf8Len(short) < ShortTextBytes && Utf8Len(long) >= ShortTextBytes
    requires provider(Request(short, "default")).Ok?
    ensures item == Some(Tag(provider(Request(short, "default")).value, Custom(long)))
  {
    var manager := new AIManager();
    manager.AutoSelectModel(short);
    var r := manager.RequestCompletion(short, provider);
    manager.AutoSelectModel(long);
    item := manager.WorkerStep();
  }

  /** Selecting with the same text twice leaves the cell as selecting once,
      whatever it held before. */
  method RepeatedSelection(first: string, text: string) returns (m: ModelType)
    ensures m == SelectModel(text)
  {
    var manager := new AIManager();
    manager.AutoSelectModel(first);
    manager.AutoSelectModel(text);
    manager.AutoSelectModel(text);
    m := manager.model;
  }

  /** A failing provider leaves nothing for the worker. */
  method FailureQueuesNothing(provider: Provider, text: string) returns (item: Option<Processed>)
    requires provider(Request(text, "default")).Err?
    ensures item == None
  {
    var manager := new AIManager();
    var r := manager.RequestCompletion(text, provider);
    item := manager.WorkerStep();
  }
}
