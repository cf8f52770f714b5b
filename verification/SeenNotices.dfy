/** The notice display: a bounded first-in first-out memory of the notices already shown. */
module SeenNotices {
  import opened Collections

  const DEFAULT_MAX_SEEN_NOTICES := 64
  const MAX_SAFE_INTEGER := 9_007_199_254_740_991

  datatype Notice = Notice(id: string, message: string, variant: string)

  /** What arrives: fields that are not strings are absent here. */
  datatype Input = NotAnObject | Fields(id: Option<string>, message: Option<string>, variant: Option<string>)

  /** The configured maximum, absent when it is not an integer. */
  function SeenLimit(configured: Option<int>): (limit: nat)
    ensures limit > 0
  {
    if configured.Some? && 0 < configured.value <= MAX_SAFE_INTEGER then configured.value else DEFAULT_MAX_SEEN_NOTICES
  }

  function NormalizeNotice(input: Input): Option<Notice> {
    match input
    case NotAnObject => None
    case Fields(id, message, variant) =>
      if id.None? || id.value == "" || message.None? || message.value == "" then None
      else
        var known := variant.Some? && variant.value in {"info", "success", "warning", "error"};
        Some(Notice(id.value, message.value, if known then variant.value else "warning"))
  }

  /** A notice is shown under exactly its own id and text, neither empty; a strange or missing variant is a warning. */
  lemma NoticeMeans(input: Input, notice: Notice)
    ensures NormalizeNotice(input) == Some(notice) <==>
            && input.Fields? && input.id == Some(notice.id) && input.message == Some(notice.message)
            && notice.id != "" && notice.message != ""
            && (var strange := input.variant.None? || input.variant.value !in ["error", "info", "success", "warning"];
                if strange then notice.variant == "warning" else input.variant == Some(notice.variant))
  {
  }

  /** A positive safe integer is the limit; anything else stands for sixty-four. */
  lemma LimitMeans(configured: Option<int>, n: nat)
    ensures SeenLimit(configured) == n <==>
            if exists c :: configured == Some(c) && 1 <= c < 9_007_199_254_740_992 then configured == Some(n)
            else n == 64
  {
  }

  /** `toasts` records every notice shown, oldest first. */
  datatype State = State(seen: seq<string>, active: bool, toasts: seq<Notice>)

  const INITIAL := State([], true, [])

  datatype Event = Show(input: Input) | Dispose

  /** The last `n` elements, or all of them. */
  function Last<T>(s: seq<T>, n: nat): seq<T> { if |s| <= n then s else s[|s| - n..] }

  function StepOn(limit: nat, s: State, e: Event): State {
    match e
    case Dispose => s.(active := false)
    case Show(input) =>
      var notice := NormalizeNotice(input);
      if !s.active || notice.None? || notice.value.id in s.seen then s
      else State(Last(s.seen + [notice.value.id], limit), true, s.toasts + [notice.value])
  }

  function Run(limit: nat, events: seq<Event>): State {
    if events == [] then INITIAL else StepOn(limit, Run(limit, events[..|events| - 1]), events[|events| - 1])
  }

  function Ids(toasts: seq<Notice>): seq<string> { seq(|toasts|, i requires 0 <= i < |toasts| => toasts[i].id) }

  /** No notice is shown twice within `limit` notices of each other. */
  ghost predicate Spaced(ids: seq<string>, limit: nat) {
    forall i, j :: 0 <= i < j < |ids| && j - i <= limit ==> ids[i] != ids[j]
  }

  ghost predicate Inv(limit: nat, s: State) {
    s.seen == Last(Ids(s.toasts), limit) && Spaced(Ids(s.toasts), limit)
  }

  /** An id that is not among the last ones may follow. */
  lemma SpacedExtends(ids: seq<string>, id: string, limit: nat)
    requires Spaced(ids, limit) && id !in Last(ids, limit)
    ensures Spaced(ids + [id], limit)
  {
    var more := ids + [id];
    forall i, j | 0 <= i < j < |more| && j - i <= limit ensures more[i] != more[j] {
      if j < |ids| {
        assert ids[i] != ids[j];
      } else {
        InLast(ids, limit, i);
      }
    }
  }

  lemma InLast(ids: seq<string>, limit: nat, i: nat)
    requires i < |ids| && |ids| - i <= limit
    ensures ids[i] in Last(ids, limit)
  {
    var last := Last(ids, limit);
    assert last[i - (|ids| - |last|)] == ids[i];
  }

  lemma LastExtends(ids: seq<string>, id: string, limit: nat)
    requires limit > 0
    ensures Last(Last(ids, limit) + [id], limit) == Last(ids + [id], limit)
  {
  }

  lemma IdsExtend(toasts: seq<Notice>, notice: Notice)
    ensures Ids(toasts + [notice]) == Ids(toasts) + [notice.id]
  {
  }

  lemma StepKeeps(limit: nat, s: State, e: Event)
    requires limit > 0 && Inv(limit, s)
    ensures Inv(limit, StepOn(limit, s, e))
  {
    hide Spaced; hide Last; hide Ids; hide NormalizeNotice;
    if e.Show? && NormalizeNotice(e.input).Some? {
      var notice := NormalizeNotice(e.input).value;
      IdsExtend(s.toasts, notice);
      LastExtends(Ids(s.toasts), notice.id, limit);
      if notice.id !in s.seen {
        SpacedExtends(Ids(s.toasts), notice.id, limit);
      }
    }
  }

  lemma {:induction false} RunKeeps(limit: nat, events: seq<Event>)
    requires limit > 0
    ensures Inv(limit, Run(limit, events))
  {
    if events != [] {
      RunKeeps(limit, events[..|events| - 1]);
      hide Inv; hide StepOn;
      StepKeeps(limit, Run(limit, events[..|events| - 1]), events[|events| - 1]);
    }
  }

  /**
   * Over every run the memory holds exactly the last notices shown, each once, and never more than the
   * limit; and it is these alone that decide what is shown next.
   */
  lemma MemoryIsTheLastShown(limit: nat, events: seq<Event>, input: Input)
    requires limit > 0
    ensures var s := Run(limit, events);
            var notice := NormalizeNotice(input);
            && s.seen == Last(Ids(s.toasts), limit) && |s.seen| <= limit
            && (forall i, j :: 0 <= i < j < |s.seen| ==> s.seen[i] != s.seen[j])
            && (StepOn(limit, s, Show(input)).toasts != s.toasts <==>
                  s.active && notice.Some? && notice.value.id !in Last(Ids(s.toasts), limit))
  {
    RunKeeps(limit, events);
    var s := Run(limit, events);
    hide Run; hide Spaced; hide Ids; hide NormalizeNotice;
    LastIsDistinct(Ids(s.toasts), limit);
    ShownOnce(limit, s, input);
    hide Last;
  }

  lemma LastIsDistinct(ids: seq<string>, limit: nat)
    requires Spaced(ids, limit)
    ensures var last := Last(ids, limit);
            |last| <= limit && forall i, j :: 0 <= i < j < |last| ==> last[i] != last[j]
  {
    var last := Last(ids, limit);
    var d := |ids| - |last|;
    forall i, j | 0 <= i < j < |last| ensures last[i] != last[j] {
      assert last[i] == ids[d + i] && last[j] == ids[d + j];
    }
  }

  lemma ShownOnce(limit: nat, s: State, input: Input)
    ensures var notice := NormalizeNotice(input);
            StepOn(limit, s, Show(input)).toasts != s.toasts <==> s.active && notice.Some? && notice.value.id !in s.seen
  {
    hide NormalizeNotice; hide Last;
    var notice := NormalizeNotice(input);
    if notice.Some? {
      assert |s.toasts + [notice.value]| == |s.toasts| + 1;
    }
  }

  /** The same notice comes back only after at least `limit` other notices, all different from each other. */
  lemma RepeatsAreFarApart(limit: nat, events: seq<Event>, i: nat, j: nat)
    requires limit > 0 && i < j < |Run(limit, events).toasts|
    requires Run(limit, events).toasts[i].id == Run(limit, events).toasts[j].id
    ensures var ids := Ids(Run(limit, events).toasts);
            && j - i > limit
            && (forall a, b :: j - limit <= a < b < j ==> ids[a] != ids[b])
            && (forall a :: j - limit <= a < j ==> ids[a] != ids[j])
  {
    RunKeeps(limit, events);
    var ids := Ids(Run(limit, events).toasts);
    assert ids[i] == ids[j];
  }

  /** Once disposed, nothing is shown and nothing is remembered. */
  lemma {:induction false} DisposedForGood(limit: nat, events: seq<Event>, more: seq<Event>)
    requires !Run(limit, events).active
    ensures Run(limit, events + more) == Run(limit, events)
    decreases |more|
  {
    if more == [] {
      assert events + more == events;
    } else {
      var all, front := events + more, more[..|more| - 1];
      assert all[..|all| - 1] == events + front;
      DisposedForGood(limit, events, front);
    }
  }

  // ---- The plugin's closure ------------------------------------------------------------------------------------

  class NoticeDisplay {
    const seenLimit: nat
    var seen: seq<string>
    var active: bool
    var toasts: seq<Notice>

    constructor (maxSeenNotices: Option<int>)
      ensures seenLimit == SeenLimit(maxSeenNotices) && Current() == INITIAL
    {
      seenLimit := SeenLimit(maxSeenNotices);
      seen, active, toasts := [], true, [];
    }

    function Current(): State
      reads this
    {
      State(seen, active, toasts)
    }

    method Show(input: Input)
      modifies this`seen, this`toasts
      ensures Current() == StepOn(seenLimit, old(Current()), Event.Show(input))
    {
      if !active {
        return;
      }
      var notice := NormalizeNotice(input);
      if notice.None? || notice.value.id in seen {
        return;
      }
      seen := seen + [notice.value.id];
      ghost var full := seen;
      while |seen| > seenLimit
        invariant |seen| <= |full| && seen == full[|full| - |seen|..]
        invariant |seen| == |full| || |seen| >= seenLimit
        invariant toasts == old(toasts)
      {
        seen := seen[1..];
      }
      assert full[0..] == full;
      assert seen == Last(full, seenLimit);
      toasts := toasts + [notice.value];
    }

    method Dispose()
      modifies this`active
      ensures Current() == StepOn(seenLimit, old(Current()), Event.Dispose)
    {
      active := false;
    }
  }
}
