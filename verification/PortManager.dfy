/** The managed port range of portmgr.go and the port column of the projects table. */
module PortManager {
  import opened Wrappers
  import opened Text

  type Project = string

  /** The port column, row by row, as the text it holds. */
  type Ports = map<Project, string>

  datatype Range = Range(start: nat, end: nat) {
    predicate Has(p: int) { start <= p <= end }

    /** The managed port that a column text stands for, if it reads as one. */
    function PortOf(s: string): Option<int> {
      match Atoi(s)
      case Some(p) => if Has(p) then Some(p) else None
      case None => None
    }
  }

  /** Another row holds the text of this port: what the allocator counts. */
  predicate Taken(ports: Ports, id: Project, p: nat) {
    exists q | q in ports :: q != id && ports[q] == Itoa(p)
  }

  predicate Usable(ports: Ports, id: Project, bindable: int -> bool, p: nat) {
    !Taken(ports, id, p) && bindable(p)
  }

  /** The first usable port from p on. */
  function FirstUsable(range: Range, ports: Ports, id: Project, bindable: int -> bool, p: nat): (r: Option<nat>)
    ensures r.Some? ==> p <= r.value <= range.end && Usable(ports, id, bindable, r.value)
    ensures forall q: nat | p <= q < (if r.Some? then r.value else range.end + 1) :: !Usable(ports, id, bindable, q)
    decreases range.end + 1 - p
  {
    if p > range.end then None
    else if Usable(ports, id, bindable, p) then Some(p)
    else FirstUsable(range, ports, id, bindable, p + 1)
  }

  function Column(ports: Ports, id: Project): string {
    if id in ports then ports[id] else ""
  }

  /** Allocate's answer: the port the project already has, or the first usable one. */
  function Allocation(range: Range, ports: Ports, id: Project, bindable: int -> bool): Option<int> {
    match range.PortOf(Column(ports, id))
    case Some(p) => Some(p)
    case None => match FirstUsable(range, ports, id, bindable, range.start)
                 case Some(p) => Some(p)
                 case None => None
  }

  /** The table afterwards: the UPDATE touches the project's row if there is one. */
  function Allocated(range: Range, ports: Ports, id: Project, bindable: int -> bool): Ports {
    if id !in ports || range.PortOf(ports[id]).Some? then ports
    else match FirstUsable(range, ports, id, bindable, range.start)
         case Some(p) => ports[id := Itoa(p)]
         case None => ports
  }

  function Freed(ports: Ports, id: Project): Ports {
    if id in ports then ports[id := ""] else ports
  }

  class Manager {
    const range: Range
    var ports: Ports

    constructor (start: nat, end: nat, ports: Ports)
      ensures range == Range(start, end) && this.ports == ports
    {
      range := Range(start, end);
      this.ports := ports;
    }

    method Allocate(id: Project, bindable: int -> bool) returns (r: Option<int>)
      modifies this
      ensures r == Allocation(range, old(ports), id, bindable)
      ensures ports == Allocated(range, old(ports), id, bindable)
    {
      hide Usable, Atoi, Itoa;
      var existing := Column(ports, id);
      if existing != "" {
        var p := Atoi(existing);
        if p.Some? && p.value >= range.start && p.value <= range.end {
          return p;
        }
      }
      EmptyIsNoPort(range);
      var port := range.start;
      while port <= range.end
        invariant range.start <= port && ports == old(ports)
        invariant FirstUsable(range, ports, id, bindable, range.start) == FirstUsable(range, ports, id, bindable, port)
      {
        UsableMeans(ports, id, bindable, port);
        if Taken(ports, id, port) || !bindable(port) {
          port := port + 1;
          continue;
        }
        if id in ports {
          ports := ports[id := Itoa(port)];
        }
        return Some(port);
      }
      r := None;
    }

    method Free(id: Project)
      modifies this
      ensures ports == Freed(old(ports), id)
    {
      if id in ports {
        ports := ports[id := ""];
      }
    }
  }

  lemma UsableMeans(ports: Ports, id: Project, bindable: int -> bool, p: nat)
    ensures Usable(ports, id, bindable, p) == (!Taken(ports, id, p) && bindable(p))
  {}

  lemma EmptyIsNoPort(range: Range)
    ensures range.PortOf("").None?
  {}

  // ---- no two projects share a managed port ---------------------------------------------------------------

  predicate NoSharing(range: Range, ports: Ports) {
    forall a, b | a in ports && b in ports && a != b ::
      range.PortOf(ports[a]).Some? ==> range.PortOf(ports[a]) != range.PortOf(ports[b])
  }

  /** Managed ports are written as Itoa writes them: no sign and no leading zero. */
  predicate Canonical(range: Range, ports: Ports) {
    forall a | a in ports && range.PortOf(ports[a]).Some? :: ports[a] == Itoa(range.PortOf(ports[a]).value)
  }

  predicate Sane(range: Range) {
    range.end <= MAX_INT64
  }

  lemma ItoaIsPort(range: Range, p: nat)
    requires Sane(range) && range.Has(p)
    ensures range.PortOf(Itoa(p)) == Some(p)
  {
    AtoiItoa(p);
  }

  /** Every other row that reads as a managed port is written the way the allocator would write it. */
  predicate OthersCanonical(range: Range, ports: Ports, id: Project) {
    forall q | q in ports && q != id && range.PortOf(ports[q]).Some? ::
      ports[q] == Itoa(range.PortOf(ports[q]).value)
  }

  /** Whatever ports can be bound, a fresh allocation keeps ports apart, exactly when every other managed port
      is written canonically: the allocator compares texts, so "03510" does not count as 3510. */
  lemma AllocateSharesExactly(range: Range, ports: Ports, id: Project)
    requires Sane(range) && NoSharing(range, ports) && id in ports && range.PortOf(ports[id]).None?
    ensures (forall bindable :: NoSharing(range, Allocated(range, ports, id, bindable)))
            <==> OthersCanonical(range, ports, id)
  {
    hide NoSharing, Allocated, OthersCanonical;
    if OthersCanonical(range, ports, id) {
      forall bindable
        ensures NoSharing(range, Allocated(range, ports, id, bindable))
      {
        CanonicalKeepsApart(range, ports, id, bindable);
      }
    } else {
      var q := OddSpelling(range, ports, id);
      SpellingIsShared(range, ports, id, q);
    }
  }

  lemma OddSpelling(range: Range, ports: Ports, id: Project) returns (q: Project)
    requires !OthersCanonical(range, ports, id)
    ensures q in ports && q != id && range.PortOf(ports[q]).Some? && ports[q] != Itoa(range.PortOf(ports[q]).value)
  {
    hide Atoi, Itoa;
    q :| q in ports && q != id && range.PortOf(ports[q]).Some? && ports[q] != Itoa(range.PortOf(ports[q]).value);
  }

  lemma CanonicalKeepsApart(range: Range, ports: Ports, id: Project, bindable: int -> bool)
    requires Sane(range) && NoSharing(range, ports) && OthersCanonical(range, ports, id)
    ensures NoSharing(range, Allocated(range, ports, id, bindable))
  {
    hide Atoi, Itoa, Usable;
    var ports' := Allocated(range, ports, id, bindable);
    if ports' != ports {
      var p := FirstUsable(range, ports, id, bindable, range.start).value;
      UsableMeans(ports, id, bindable, p);
      ItoaIsPort(range, p);
      forall q | q in ports && q != id
        ensures range.PortOf(ports[q]) != Some(p)
      {
        assert ports[q] != Itoa(p);
      }
    }
  }

  /** With nothing but the oddly written port left to bind, that port is what the allocator gives out. */
  lemma SpellingIsShared(range: Range, ports: Ports, id: Project, q: Project)
    requires Sane(range) && NoSharing(range, ports) && id in ports && range.PortOf(ports[id]).None?
    requires q in ports && q != id && range.PortOf(ports[q]).Some?
    requires ports[q] != Itoa(range.PortOf(ports[q]).value)
    ensures var p := range.PortOf(ports[q]).value;
            var ports' := Allocated(range, ports, id, x => x == p);
            ports' == ports[id := Itoa(p)] && !NoSharing(range, ports')
  {
    hide Atoi, Itoa;
    var p: nat := range.PortOf(ports[q]).value;
    var bindable := x => x == p;
    ItoaIsPort(range, p);
    forall a | a in ports && a != id
      ensures ports[a] != Itoa(p)
    {
      assert a != q ==> range.PortOf(ports[a]) != range.PortOf(ports[q]);
    }
    assert Usable(ports, id, bindable, p);
    FirstIs(range, ports, id, bindable, range.start, p);
    var ports' := ports[id := Itoa(p)];
    assert ports' == Allocated(range, ports, id, bindable);
    assert range.PortOf(ports'[id]) == range.PortOf(ports'[q]);
  }

  lemma FirstIs(range: Range, ports: Ports, id: Project, bindable: int -> bool, lo: nat, p: nat)
    requires lo <= p <= range.end && Usable(ports, id, bindable, p)
    requires forall q | q != p :: !bindable(q)
    ensures FirstUsable(range, ports, id, bindable, lo) == Some(p)
  {
    var r := FirstUsable(range, ports, id, bindable, lo);
    if r.Some? {
      UsableMeans(ports, id, bindable, r.value);
    }
  }

  /** The two spellings do collide: with a row "03510" another project can be given 3510. */
  lemma SpellingCollides(a: Project, b: Project, bindable: int -> bool)
    requires a != b && bindable(3510)
    ensures var range := Range(3510, 3599);
            var ports: Ports := map[a := "03510", b := ""];
            NoSharing(range, ports) && !NoSharing(range, Allocated(range, ports, b, bindable))
  {
    var range := Range(3510, 3599);
    var ports: Ports := map[a := "03510", b := ""];
    EmptyIsNoPort(range);
    Spelling();
    assert !Taken(ports, b, 3510);
    assert Usable(ports, b, bindable, 3510);
    assert Allocated(range, ports, b, bindable) == ports[b := Itoa(3510)];
    ItoaIsPort(range, 3510);
    var ports' := Allocated(range, ports, b, bindable);
    assert range.PortOf(ports'[a]) == range.PortOf(ports'[b]) == Some(3510);
  }

  lemma Spelling()
    ensures Range(3510, 3599).PortOf("03510") == Some(3510) && Itoa(3510) != "03510"
  {
    var s := "03510";
    assert s[..4] == "0351" && s[..4][..3] == "035" && s[..4][..3][..2] == "03" && s[..4][..3][..2][..1] == "0";
    assert s[..4][..3][..2][..1][..0] == "";
    assert Value("0") == 0;
    assert Value("03") == 3;
    assert Value("035") == 35;
    assert Value("0351") == 351;
    assert Value("03510") == 3510;
    assert |Itoa(3510)| == 4;
  }

  lemma AllocateKeeps(range: Range, ports: Ports, id: Project, bindable: int -> bool)
    requires Sane(range) && NoSharing(range, ports) && Canonical(range, ports)
    ensures NoSharing(range, Allocated(range, ports, id, bindable))
    ensures Canonical(range, Allocated(range, ports, id, bindable))
  {
    hide Atoi, Itoa, NoSharing;
    CanonicalKeepsApart(range, ports, id, bindable);
    var ports' := Allocated(range, ports, id, bindable);
    if ports' != ports {
      ItoaIsPort(range, FirstUsable(range, ports, id, bindable, range.start).value);
    }
  }

  lemma FreeKeeps(range: Range, ports: Ports, id: Project)
    requires NoSharing(range, ports) && Canonical(range, ports)
    ensures NoSharing(range, Freed(ports, id)) && Canonical(range, Freed(ports, id))
  {
    hide Atoi, Itoa;
    EmptyIsNoPort(range);
  }

  datatype Event = Allocate(id: Project, bindable: int -> bool) | Free(id: Project)

  function Apply(range: Range, ports: Ports, e: Event): Ports {
    match e
    case Allocate(id, bindable) => Allocated(range, ports, id, bindable)
    case Free(id) => Freed(ports, id)
  }

  function After(range: Range, ports: Ports, events: seq<Event>): Ports {
    if events == [] then ports
    else Apply(range, After(range, ports, events[..|events| - 1]), events[|events| - 1])
  }

  /** From a table without sharing, no run of Allocate and Free makes two projects share a managed port,
      exactly when all managed ports are written canonically or there is no second row. */
  lemma PortsStayApart(range: Range, ports: Ports)
    requires Sane(range) && NoSharing(range, ports)
    ensures (forall events: seq<Event> :: NoSharing(range, After(range, ports, events)))
            <==> Canonical(range, ports) || |ports| <= 1
  {
    hide NoSharing, Canonical, After;
    if Canonical(range, ports) || |ports| <= 1 {
      forall events: seq<Event>
        ensures NoSharing(range, After(range, ports, events))
      {
        if Canonical(range, ports) {
          CanonicalStaysApart(range, ports, events);
        } else {
          SameRows(range, ports, events);
          OneRowShares(range, After(range, ports, events));
        }
      }
    } else {
      var events := SharingRun(range, ports);
    }
  }

  lemma {:induction false} CanonicalStaysApart(range: Range, ports: Ports, events: seq<Event>)
    requires Sane(range) && NoSharing(range, ports) && Canonical(range, ports)
    ensures NoSharing(range, After(range, ports, events)) && Canonical(range, After(range, ports, events))
  {
    hide NoSharing, Canonical;
    if events != [] {
      var n := |events| - 1;
      CanonicalStaysApart(range, ports, events[..n]);
      match events[n] {
        case Allocate(id, bindable) => AllocateKeeps(range, After(range, ports, events[..n]), id, bindable);
        case Free(id) => FreeKeeps(range, After(range, ports, events[..n]), id);
      }
    }
  }

  lemma {:induction false} SameRows(range: Range, ports: Ports, events: seq<Event>)
    ensures After(range, ports, events).Keys == ports.Keys
  {
    hide Atoi, Itoa;
    if events != [] {
      SameRows(range, ports, events[..|events| - 1]);
    }
  }

  lemma OneRowShares(range: Range, ports: Ports)
    requires |ports.Keys| <= 1
    ensures NoSharing(range, ports)
  {
    forall a, b | a in ports && b in ports
      ensures a == b
    {
      assert |ports.Keys - {a}| == |ports.Keys| - 1;
      assert ports.Keys - {a} == {};
    }
  }

  /** With a second row and an odd spelling somewhere, freeing the second row and asking again shares the port. */
  lemma SharingRun(range: Range, ports: Ports) returns (events: seq<Event>)
    requires Sane(range) && NoSharing(range, ports) && !Canonical(range, ports) && |ports| > 1
    ensures !NoSharing(range, After(range, ports, events))
  {
    hide Atoi, Itoa;
    var q :| q in ports && range.PortOf(ports[q]).Some? && ports[q] != Itoa(range.PortOf(ports[q]).value);
    var id := Other(ports, q);
    var p := range.PortOf(ports[q]).value;
    var freed := Freed(ports, id);
    EmptyIsNoPort(range);
    SpellingIsShared(range, freed, id, q);
    events := [Free(id), Allocate(id, x => x == p)];
    assert events[..1] == [Free(id)] && events[..1][..0] == [];
    assert After(range, ports, events[..1]) == freed;
  }

  lemma Other(ports: Ports, q: Project) returns (id: Project)
    requires q in ports && |ports| > 1
    ensures id in ports && id != q
  {
    assert |ports.Keys - {q}| == |ports.Keys| - 1;
    assert ports.Keys - {q} != {};
    id :| id in ports.Keys - {q};
  }

  /** A project keeps the port it was given, and is given it again, until it is freed. */
  lemma {:induction false} KeptUntilFreed(range: Range, ports: Ports, id: Project, p: int, events: seq<Event>,
      bindable: int -> bool)
    requires id in ports && range.PortOf(ports[id]) == Some(p)
    requires forall i | 0 <= i < |events| :: events[i] != Free(id)
    ensures var after := After(range, ports, events);
            id in after && after[id] == ports[id] && Allocation(range, after, id, bindable) == Some(p)
            && Allocated(range, after, id, bindable) == after
  {
    hide Atoi, Itoa;
    if events != [] {
      KeptUntilFreed(range, ports, id, p, events[..|events| - 1], bindable);
    }
  }

  /** A project with a row that is given a port now has it. */
  lemma AllocationIsRecorded(range: Range, ports: Ports, id: Project, bindable: int -> bool)
    requires Sane(range) && id in ports && Allocation(range, ports, id, bindable).Some?
    ensures range.PortOf(Allocated(range, ports, id, bindable)[id]) == Allocation(range, ports, id, bindable)
  {
    hide Atoi, Itoa, Usable;
    if range.PortOf(ports[id]).None? {
      ItoaIsPort(range, Allocation(range, ports, id, bindable).value);
    }
  }

  // ---- failing only when the range is used up ---------------------------------------------------------------

  /** Projects other than id whose column holds the text of a port of the range. */
  ghost function HoldersOf(range: Range, ports: Ports, id: Project): set<Project> {
    set q | q in ports && q != id && exists p :: HoldsPort(range, ports, q, p)
  }

  ghost predicate HoldsPort(range: Range, ports: Ports, q: Project, p: int) {
    q in ports && range.Has(p) && ports[q] == Itoa(p)
  }

  function Unbindable(range: Range, bindable: int -> bool): set<int> {
    set p | p in Interval(range.start, range.end) && !bindable(p)
  }

  function Interval(lo: int, hi: int): (r: set<int>)
    ensures forall p :: p in r <==> lo <= p <= hi
    decreases hi - lo
  {
    if lo > hi then {} else Interval(lo, hi - 1) + {hi}
  }

  ghost predicate HeldBy(holders: set<Project>, range: Range, ports: Ports, p: int) {
    exists q :: q in holders && HoldsPort(range, ports, q, p)
  }

  /** The pigeonhole count: distinct ports are held by distinct projects. */
  lemma {:induction false} PortsUsedUp(lo: int, hi: int, holders: set<Project>, unbindable: set<int>, range: Range,
      ports: Ports)
    requires lo <= hi + 1
    requires forall p | lo <= p <= hi :: p in unbindable || HeldBy(holders, range, ports, p)
    ensures hi + 1 - lo <= |holders| + |unbindable|
    decreases hi - lo
  {
    hide HoldsPort;
    if lo <= hi {
      if hi in unbindable {
        PortsUsedUp(lo, hi - 1, holders, unbindable - {hi}, range, ports);
      } else {
        assert HeldBy(holders, range, ports, hi);
        var q :| q in holders && HoldsPort(range, ports, q, hi);
        forall p | lo <= p <= hi - 1 && p !in unbindable ensures HeldBy(holders - {q}, range, ports, p) {
          var q' :| q' in holders && HoldsPort(range, ports, q', p);
          OnePortEach(range, ports, q, hi, q', p);
        }
        PortsUsedUp(lo, hi - 1, holders - {q}, unbindable, range, ports);
      }
    }
  }

  lemma OnePortEach(range: Range, ports: Ports, q: Project, p: int, q': Project, p': int)
    requires HoldsPort(range, ports, q, p) && HoldsPort(range, ports, q', p') && p != p'
    ensures q != q'
  {
    ValueItoa(p);
    ValueItoa(p');
  }

  /** Allocation fails only when the other projects' ports and the ports that cannot be bound use up the
      whole range; it fails exactly when every port of it is one or the other. */
  lemma FailsOnlyWhenFull(range: Range, ports: Ports, id: Project, bindable: int -> bool)
    requires range.start <= range.end && range.PortOf(Column(ports, id)).None?
    ensures Allocation(range, ports, id, bindable).None? <==>
            forall p: nat | range.Has(p) :: Taken(ports, id, p) || !bindable(p)
    ensures Allocation(range, ports, id, bindable).None? ==>
            |HoldersOf(range, ports, id)| + |Unbindable(range, bindable)| >= range.end + 1 - range.start
  {
    hide Itoa, Atoi;
    if Allocation(range, ports, id, bindable).None? {
      forall p: nat | range.Has(p) ensures Taken(ports, id, p) || !bindable(p) {
        assert !Usable(ports, id, bindable, p);
      }
      FullRangeCount(range, ports, id, bindable);
    }
  }

  lemma FullRangeCount(range: Range, ports: Ports, id: Project, bindable: int -> bool)
    requires range.start <= range.end
    requires forall p: nat | range.Has(p) :: Taken(ports, id, p) || !bindable(p)
    ensures |HoldersOf(range, ports, id)| + |Unbindable(range, bindable)| >= range.end + 1 - range.start
  {
    hide Itoa;
    var unbindable := Unbindable(range, bindable);
    var holders := HoldersOf(range, ports, id);
    forall p | range.start <= p <= range.end && p !in unbindable ensures HeldBy(holders, range, ports, p) {
      assert Taken(ports, id, p);
      var q :| q in ports && q != id && ports[q] == Itoa(p);
      assert HoldsPort(range, ports, q, p);
    }
    PortsUsedUp(range.start, range.end, holders, unbindable, range, ports);
  }
}
