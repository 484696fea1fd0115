/**
  The input tracker: for each logical input, whether it is held in the
  current frame and whether it was held in the previous one, and the
  level and edge queries derived from the two.
*/
module Input {

  /** The logical inputs, numbered as the program's enum numbers them. */
  const SPACE: int := 0
  const L_CLICK: int := 1
  const R_CLICK: int := 2
  const UP_ARROW: int := 3
  const DOWN_ARROW: int := 4
  const ENTER: int := 5
  const S: int := 6
  const NUM_INPUTS: int := 7

  /** Held state of every input in the current frame (curr) and the previous one (prev). */
  datatype Tracker = Tracker(curr: seq<bool>, prev: seq<bool>)

  predicate Valid(t: Tracker) {
    |t.curr| == NUM_INPUTS && |t.prev| == NUM_INPUTS
  }

  /** At start-up nothing is held, now or before. */
  function Initial(): (t: Tracker)
    ensures Valid(t)
    ensures forall k :: 0 <= k < NUM_INPUTS ==> !t.curr[k] && !t.prev[k]
  {
    Tracker(seq(NUM_INPUTS, _ => false), seq(NUM_INPUTS, _ => false))
  }

  /** An input event sets the held state of one input; press is true, release false. */
  function SetInput(t: Tracker, key: int, pressed: bool): (t': Tracker)
    requires Valid(t) && 0 <= key < NUM_INPUTS
    ensures Valid(t') && t'.prev == t.prev
    ensures t'.curr[key] == pressed
    ensures forall k :: 0 <= k < NUM_INPUTS && k != key ==> t'.curr[k] == t.curr[k]
  {
    t.(curr := t.curr[key := pressed])
  }

  /** The end-of-frame snapshot: the previous state becomes the current one. */
  function EndFrame(t: Tracker): (t': Tracker)
    requires Valid(t)
    ensures Valid(t') && t'.curr == t.curr
    ensures forall k :: 0 <= k < NUM_INPUTS ==> t'.prev[k] == t.curr[k]
  {
    t.(prev := t.curr)
  }

  // ---------------------------------------------------------------------------
  // The key guard.

  /**
    The guard of getInput, getFirstInput and getLastInput as written: it
    returns early only for key < 0 or key > NUM_INPUTS, and otherwise reads
    the arrays at key. The only key it lets through that lies outside the
    arrays is NUM_INPUTS itself.
  */
  predicate GuardAdmitsAsWritten(key: int)
    ensures GuardAdmitsAsWritten(key) && !(key < NUM_INPUTS) <==> key == NUM_INPUTS
  {
    !(key < 0 || key > NUM_INPUTS)
  }

  /** The guard lets key NUM_INPUTS through to a read one past the end of a 7-entry array. */
  lemma GuardOffByOne(t: Tracker)
    requires Valid(t)
    ensures GuardAdmitsAsWritten(NUM_INPUTS) && NUM_INPUTS == |t.curr| == |t.prev|
  {
  }

  /**
    The intended guard: a key may be read exactly when it indexes the arrays,
    which is the guard as written with NUM_INPUTS itself refused.
  */
  predicate KeyInRange(key: int)
    ensures KeyInRange(key) <==> GuardAdmitsAsWritten(key) && key != NUM_INPUTS
  {
    0 <= key < NUM_INPUTS
  }

  /** The two guards agree on every key except NUM_INPUTS. */
  lemma GuardsAgree(key: int)
    ensures key != NUM_INPUTS ==> (GuardAdmitsAsWritten(key) <==> KeyInRange(key))
    ensures GuardAdmitsAsWritten(NUM_INPUTS) && !KeyInRange(NUM_INPUTS)
  {
  }

  // ---------------------------------------------------------------------------
  // Queries, with the intended guard.

  /** getInput: whether key is held this frame; a key outside the inputs reads as not held. */
  function GetInput(t: Tracker, key: int): (held: bool)
    requires Valid(t)
    ensures !KeyInRange(key) ==> !held
  {
    if !KeyInRange(key) then false else t.curr[key]
  }

  /** getFirstInput: the rising edge of key, held now and not in the previous frame. */
  function GetFirstInput(t: Tracker, key: int): (rising: bool)
    requires Valid(t)
    ensures rising ==> GetInput(t, key)
    ensures !KeyInRange(key) ==> !rising
  {
    if !KeyInRange(key) then false else t.curr[key] && !t.prev[key]
  }

  /** getLastInput: the falling edge of key, held in the previous frame and not now. */
  function GetLastInput(t: Tracker, key: int): (falling: bool)
    requires Valid(t)
    ensures falling ==> !GetInput(t, key)
    ensures !KeyInRange(key) ==> !falling
  {
    if !KeyInRange(key) then false else !t.curr[key] && t.prev[key]
  }

  /** An input never rises and falls in the same frame. */
  lemma EdgesExclusive(t: Tracker, key: int)
    requires Valid(t)
    ensures !(GetFirstInput(t, key) && GetLastInput(t, key))
  {
  }

  /**
    An edge is a change: an in-range input shows a rising or falling edge
    exactly when its held state differs from the previous frame's.
  */
  lemma EdgeIsChange(t: Tracker, key: int)
    requires Valid(t) && KeyInRange(key)
    ensures GetFirstInput(t, key) || GetLastInput(t, key) <==> t.curr[key] != t.prev[key]
  {
  }

  /** Right after the end-of-frame snapshot no input shows any edge. */
  lemma NoEdgeAfterSnapshot(t: Tracker, key: int)
    requires Valid(t)
    ensures !GetFirstInput(EndFrame(t), key) && !GetLastInput(EndFrame(t), key)
    ensures GetInput(EndFrame(t), key) == GetInput(t, key)
  {
  }

  // ---------------------------------------------------------------------------
  // Edges over a run of frames.

  /**
    The rising edge of key as processInputs sees it in each frame, when the
    events of frame f leave key held exactly when held[f] and the snapshot
    runs once at the end of every frame.
  */
  function RisingEdges(t: Tracker, key: int, held: seq<bool>): (edges: seq<bool>)
    requires Valid(t) && KeyInRange(key)
    ensures |edges| == |held|
    decreases |held|
  {
    if held == [] then []
    else
      var now := SetInput(t, key, held[0]);
      [GetFirstInput(now, key)] + RisingEdges(EndFrame(now), key, held[1..])
  }

  /**
    In every frame the edge is exactly "held now and not held in the frame
    before"; for the first frame "before" is the tracker's previous state.
  */
  lemma {:induction false} RisingEdgesExact(t: Tracker, key: int, held: seq<bool>, f: int)
    requires Valid(t) && KeyInRange(key) && 0 <= f < |held|
    ensures RisingEdges(t, key, held)[f] <==>
      held[f] && !(if f == 0 then t.prev[key] else held[f - 1])
    decreases f
  {
    if f > 0 {
      var now := SetInput(t, key, held[0]);
      RisingEdgesExact(EndFrame(now), key, held[1..], f - 1);
      assert RisingEdges(t, key, held)[f] == RisingEdges(EndFrame(now), key, held[1..])[f - 1];
    }
  }

  /** Number of true entries. */
  function CountTrue(s: seq<bool>): (n: nat)
    ensures n <= |s|
  {
    if s == [] then 0 else (if s[0] then 1 else 0) + CountTrue(s[1..])
  }

  /**
    Holding a key for n >= 1 consecutive frames, starting from released,
    produces exactly one rising edge, in the first frame.
  */
  lemma HoldRisesOnce(t: Tracker, key: int, held: seq<bool>)
    requires Valid(t) && KeyInRange(key) && !t.prev[key]
    requires |held| >= 1 && forall f :: 0 <= f < |held| ==> held[f]
    ensures RisingEdges(t, key, held)[0]
    ensures forall f :: 1 <= f < |held| ==> !RisingEdges(t, key, held)[f]
    ensures CountTrue(RisingEdges(t, key, held)) == 1
  {
    var edges := RisingEdges(t, key, held);
    forall f | 0 <= f < |held|
      ensures edges[f] <==> f == 0
    {
      RisingEdgesExact(t, key, held, f);
    }
    OnlyFirstTrue(edges);
  }

  lemma {:induction false} OnlyFirstTrue(s: seq<bool>)
    requires |s| >= 1 && s[0] && forall f :: 1 <= f < |s| ==> !s[f]
    ensures CountTrue(s) == 1
  {
    NoneTrue(s[1..]);
  }

  lemma {:induction false} NoneTrue(s: seq<bool>)
    requires forall f :: 0 <= f < |s| ==> !s[f]
    ensures CountTrue(s) == 0
    decreases |s|
  {
    if s != [] {
      NoneTrue(s[1..]);
    }
  }
}
