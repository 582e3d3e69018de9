/** The handle table of the Go backend, after api-apple.go. */
module TunnelBackend {
  const MAX_INT32: int := 0x7fff_ffff

  /** Which of the fallible steps of wgTurnOn succeed. */
  datatype TurnOnSteps = TurnOnSteps(dup: bool, nonblock: bool, createTun: bool, ipcSet: bool) {
    predicate AllSucceed() {
      dup && nonblock && createTun && ipcSet
    }
  }

  /** What is sent to a device: a whole configuration, or only the endpoints of its peers. */
  datatype Message<Config> = Full(config: Config) | Endpoints(config: Config)

  /** What IpcSet answers: no error, an error of the protocol with its code, or another error. */
  datatype Answer = Accepts | IpcError(code: int) | OtherError

  /** A message and the device's answer.  What a device makes of the messages it was sent, also
      of those it refused half-way, is its own matter. */
  datatype Delivery<Config> = Delivery(message: Message<Config>, answer: Answer)

  /** The configuration that was sent last was c, it was accepted, and nothing but endpoints of
      c came after it. */
  ghost predicate Holds<Config>(log: seq<Delivery<Config>>, c: Config) {
    log != [] &&
    var last := log[|log| - 1];
    if last.message.Full? then last == Delivery(Full(c), Accepts)
    else last.message.config == c && Holds(log[..|log| - 1], c)
  }

  /** A backend call that opened or closed a tunnel. */
  datatype Event<Config> = On(handle: int, config: Config) | Off(handle: int)

  /** The handles open after a history. */
  ghost function OpenAfter<Config>(history: seq<Event<Config>>): set<int> {
    if history == [] then {}
    else
      var open := OpenAfter(history[..|history| - 1]);
      match history[|history| - 1]
      case On(h, _) => open + {h}
      case Off(h) => open - {h}
  }

  /** Every handle is opened while closed and closed while open. */
  ghost predicate Paired<Config>(history: seq<Event<Config>>) {
    history == [] ||
    (Paired(history[..|history| - 1])
     && match history[|history| - 1]
        case On(h, _) => h !in OpenAfter(history[..|history| - 1])
        case Off(h) => h in OpenAfter(history[..|history| - 1]))
  }

  lemma PairedAppend<Config>(history: seq<Event<Config>>, e: Event<Config>)
    requires Paired(history)
    requires e.On? ==> e.handle !in OpenAfter(history)
    requires e.Off? ==> e.handle in OpenAfter(history)
    ensures Paired(history + [e])
    ensures OpenAfter(history + [e]) == if e.On? then OpenAfter(history) + {e.handle}
      else OpenAfter(history) - {e.handle}
  {
    assert (history + [e])[..|history|] == history;
  }

  ghost function Opens<Config>(history: seq<Event<Config>>, h: int): nat {
    if history == [] then 0
    else
      var e := history[|history| - 1];
      Opens(history[..|history| - 1], h) + if e.On? && e.handle == h then 1 else 0
  }

  ghost function Closes<Config>(history: seq<Event<Config>>, h: int): nat {
    if history == [] then 0
    else Closes(history[..|history| - 1], h) + if history[|history| - 1] == Off(h) then 1 else 0
  }

  /** In a paired history no handle is closed more often than it was opened, and the difference
      is exactly whether it is open. */
  lemma {:induction false} ClosedOnceEach<Config>(history: seq<Event<Config>>, h: int)
    requires Paired(history)
    ensures Opens(history, h) == Closes(history, h) + if h in OpenAfter(history) then 1 else 0
  {
    if history != [] { ClosedOnceEach(history[..|history| - 1], h); }
  }

  class Backend<Config> {
    /** The open devices, each with all it was sent. */
    var tunnelHandles: map<int, seq<Delivery<Config>>>
    ghost var history: seq<Event<Config>>

    ghost predicate Valid()
      reads this
    {
      Paired(history) && OpenAfter(history) == tunnelHandles.Keys
      && forall h <- tunnelHandles.Keys :: 0 <= h < MAX_INT32
    }

    constructor ()
      ensures Valid() && tunnelHandles == map[] && history == []
    {
      tunnelHandles, history := map[], [];
    }

    /** wgTurnOn: the smallest free handle, or -1. */
    method TurnOn(config: Config, steps: TurnOnSteps) returns (handle: int)
      requires Valid()
      modifies this
      ensures Valid()
      ensures handle == -1 ==> unchanged(this)
      ensures handle != -1 ==>
        steps.AllSucceed() && 0 <= handle < 2147483647 && handle !in old(tunnelHandles)
        && (forall i :: 0 <= i < handle ==> i in old(tunnelHandles))
        && tunnelHandles == old(tunnelHandles)[handle := [Delivery(Full(config), Accepts)]]
        && history == old(history) + [On(handle, config)]
      ensures handle == -1 <==>
        !steps.AllSucceed() || forall i :: 0 <= i < 2147483647 ==> i in old(tunnelHandles)
    {
      if !steps.dup { return -1; }
      if !steps.nonblock { return -1; }
      if !steps.createTun { return -1; }
      if !steps.ipcSet { return -1; }
      var i := 0;
      while i < MAX_INT32 && i in tunnelHandles
        invariant 0 <= i <= MAX_INT32 && forall k :: 0 <= k < i ==> k in tunnelHandles
      {
        i := i + 1;
      }
      if i == MAX_INT32 { return -1; }
      PairedAppend(history, On(i, config));
      tunnelHandles := tunnelHandles[i := [Delivery(Full(config), Accepts)]];
      history := history + [On(i, config)];
      return i;
    }

    /** wgTurnOff: unknown handles are ignored. */
    method TurnOff(handle: int)
      requires Valid()
      modifies this
      ensures Valid()
      ensures handle !in old(tunnelHandles) ==> unchanged(this)
      ensures handle in old(tunnelHandles) ==>
        tunnelHandles == old(tunnelHandles) - {handle} && history == old(history) + [Off(handle)]
    {
      if handle !in tunnelHandles { return; }
      PairedAppend(history, Off(handle));
      tunnelHandles := tunnelHandles - {handle};
      history := history + [Off(handle)];
    }

    /** wgSetConfig: an unknown handle is ignored, any other device gets the message. */
    method SetConfig(handle: int, message: Message<Config>, answer: Answer) returns (code: int)
      requires Valid()
      modifies this`tunnelHandles
      ensures Valid()
      ensures handle !in old(tunnelHandles) ==> tunnelHandles == old(tunnelHandles) && code == 0
      ensures handle in old(tunnelHandles) ==>
        tunnelHandles == old(tunnelHandles)[handle := old(tunnelHandles)[handle] + [Delivery(message, answer)]]
        && code == match answer case Accepts => 0 case IpcError(c) => c case OtherError => -1
    {
      if handle !in tunnelHandles { return 0; }
      tunnelHandles := tunnelHandles[handle := tunnelHandles[handle] + [Delivery(message, answer)]];
      match answer {
        case Accepts => return 0;
        case IpcError(c) => return c;
        case OtherError => return -1;
      }
    }
  }
}
