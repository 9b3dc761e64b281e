/** Whole histories of the handle layer against a layer without buffers, in which a file simply has its
    present bytes. */
module HandleHistory {
  import opened Transactions
  import opened ReadAhead
  import opened HandleLayer
  import opened FuseOperations

  datatype Request =
    | OpenFile(inode: nat, wantsWrite: bool, truncate: bool, locked: bool)
    | ReadFile(fh: nat, offset: nat, size: nat)
    | WriteFile(fh: nat, offset: nat, piece: seq<byte>, preflightOk: bool)
    | Truncate(inode: nat, size: nat, preflightOk: bool, ownership: bool, outcome: ImageOutcome)
    | FlushHandle(fh: nat, data: ImageOutcome, meta: ImageOutcome)
    | ReleaseHandle(fh: nat, data: ImageOutcome, meta: ImageOutcome)

  datatype Answer = Handle(fh: nat) | Bytes(data: seq<byte>) | Done | Refused

  /** The unbuffered layer: files and open handles. */
  datatype Plain = Plain(files: map<nat, seq<byte>>, handles: map<nat, nat>)

  function Next(p: Plain, writable: bool, r: Request, a: Answer): Plain {
    match r
    case OpenFile(inode, wantsWrite, truncate, _) =>
      if !a.Handle? then p
      else Plain(if wantsWrite && truncate then p.files[inode := []] else p.files, p.handles[a.fh := inode])
    case ReadFile(_, _, _) => p
    case WriteFile(fh, offset, piece, _) =>
      if a.Done? && fh in p.handles && p.handles[fh] in p.files
      then p.(files := p.files[p.handles[fh] := Spliced(p.files[p.handles[fh]], offset, piece)]) else p
    case Truncate(inode, size, preflightOk, _, _) =>
      if writable && inode in p.files && preflightOk
      then p.(files := p.files[inode := Resized(p.files[inode], size)])
      else p
    case FlushHandle(_, _, _) => p
    case ReleaseHandle(fh, _, _) => if a.Done? then p.(handles := p.handles - {fh}) else p
  }

  /** A read is answered with the file's present bytes; a new handle is one nobody has. */
  predicate Right(p: Plain, writable: bool, r: Request, a: Answer) {
    match r
    case OpenFile(inode, wantsWrite, _, locked) =>
      && (a.Handle? <==> inode in p.files && (wantsWrite ==> writable && !locked))
      && (a.Handle? ==> a.fh !in p.handles)
    case ReadFile(fh, offset, size) =>
      if fh in p.handles && p.handles[fh] in p.files
      then a == Bytes(Slice(p.files[p.handles[fh]], offset, offset + size))
      else a == Refused
    case WriteFile(fh, _, piece, _) => a.Done? ==> writable && HasFile(p, fh)
    case Truncate(inode, _, preflightOk, ownership, _) =>
      a.Done? ==> writable && inode in p.files && preflightOk && !ownership
    case FlushHandle(fh, _, _) => a.Done? ==> fh in p.handles
    case ReleaseHandle(fh, _, _) => a.Done? ==> fh in p.handles
  }

  predicate HasFile(p: Plain, fh: nat) {
    fh in p.handles && p.handles[fh] in p.files
  }

  function After(p: Plain, writable: bool, requests: seq<Request>, answers: seq<Answer>): Plain
    requires |answers| == |requests|
  {
    if requests == [] then p
    else
      var n := |requests| - 1;
      Next(After(p, writable, requests[..n], answers[..n]), writable, requests[n], answers[n])
  }

  /** Every answer is right for what the history before it made of the files. */
  predicate AllRight(p: Plain, writable: bool, requests: seq<Request>, answers: seq<Answer>)
    requires |answers| == |requests|
  {
    requests == [] ||
    var n := |requests| - 1;
    && AllRight(p, writable, requests[..n], answers[..n])
    && Right(After(p, writable, requests[..n], answers[..n]), writable, requests[n], answers[n])
  }

  lemma NothingAsked(start: Plain, writable: bool)
    ensures AllRight(start, writable, [], []) && After(start, writable, [], []) == start
  {
  }

  lemma OneMore(start: Plain, writable: bool, requests: seq<Request>, i: nat, answers: seq<Answer>, a: Answer)
    requires i < |requests| && |answers| == i && AllRight(start, writable, requests[..i], answers)
    requires Right(After(start, writable, requests[..i], answers), writable, requests[i], a)
    ensures AllRight(start, writable, requests[..i + 1], answers + [a])
    ensures After(start, writable, requests[..i + 1], answers + [a])
            == Next(After(start, writable, requests[..i], answers), writable, requests[i], a)
  {
    assert requests[..i + 1][..i] == requests[..i] && (answers + [a])[..i] == answers;
  }

  ghost function Shown(l: Layer): Plain {
    Plain(View(l), l.handles)
  }

  /** One request: unless the image latches the layer goes on showing what the unbuffered one has. */
  method ServeOne(layer: Operations, r: Request) returns (a: Answer)
    requires layer.Valid()
    modifies layer
    ensures layer.Valid() && (old(layer.imageFailed) ==> layer.imageFailed)
    ensures !layer.imageFailed ==>
              && Right(Shown(old(layer.Abs())), layer.writable, r, a)
              && Shown(layer.Abs()) == Next(Shown(old(layer.Abs())), layer.writable, r, a)
  {
    hide AllFresh, CleanBuffersMatch, Exact, Slice, Spliced, Resized;
    match r {
      case OpenFile(inode, wantsWrite, truncate, locked) =>
        var reply := layer.Open(inode, wantsWrite, truncate, locked);
        a := if reply.Ok? then Handle(reply.value) else Refused;
      case ReadFile(fh, offset, size) =>
        var reply := layer.Read(fh, offset, size);
        a := if reply.Ok? then Bytes(reply.value) else Refused;
      case WriteFile(fh, offset, piece, preflightOk) =>
        var reply := layer.Write(fh, offset, piece, preflightOk);
        a := if reply.Ok? then Done else Refused;
      case Truncate(inode, size, preflightOk, ownership, outcome) =>
        var reply := layer.SetSize(inode, size, preflightOk, ownership, outcome);
        a := if reply.Ok? then Done else Refused;
      case FlushHandle(fh, data, meta) =>
        var ok := layer.Flush(fh, data, meta);
        a := if ok then Done else Refused;
      case ReleaseHandle(fh, data, meta) =>
        var ok := layer.Release(fh, data, meta);
        a := if ok then Done else Refused;
    }
  }

  /** Over every history of opens, reads, writes, truncations, flushes and releases, whatever the image
      does to commits short of latching, each read is answered with exactly the bytes an unbuffered layer
      would have. */
  method Serve(layer: Operations, requests: seq<Request>) returns (answers: seq<Answer>)
    requires layer.Valid()
    modifies layer
    ensures layer.Valid() && |answers| == |requests|
    ensures !layer.imageFailed ==>
              && AllRight(Shown(old(layer.Abs())), layer.writable, requests, answers)
              && Shown(layer.Abs()) == After(Shown(old(layer.Abs())), layer.writable, requests, answers)
  {
    hide Right, Next, Shown, After, AllRight;
    answers := [];
    ghost var start := Shown(layer.Abs());
    NothingAsked(start, layer.writable);
    assert requests[..0] == [];
    for i := 0 to |requests|
      invariant layer.Valid() && |answers| == i
      invariant !layer.imageFailed ==>
                  && AllRight(start, layer.writable, requests[..i], answers)
                  && Shown(layer.Abs()) == After(start, layer.writable, requests[..i], answers)
    {
      var a := ServeOne(layer, requests[i]);
      if !layer.imageFailed {
        OneMore(start, layer.writable, requests, i, answers, a);
      }
      answers := answers + [a];
    }
    assert requests[..|requests|] == requests;
  }
}
