/** The fixed tables of images and of variables, looked up by name. */
module NameTable {

  datatype Slot<T> = Slot(used: bool, name: string, content: T)

  predicate Matches<T>(s: Slot<T>, name: string) {
    s.used && s.name == name
  }

  /** The first slot from i on that has the name, or the end. */
  function First<T>(t: seq<Slot<T>>, name: string, i: nat): (r: nat)
    requires i <= |t|
    ensures i <= r <= |t|
    decreases |t| - i
  {
    if i == |t| || Matches(t[i], name) then i else First(t, name, i + 1)
  }

  /** image_ID, variable_ID: a match in the last slot is not reported. */
  function Lookup<T>(t: seq<Slot<T>>, name: string): (r: int)
    requires |t| >= 1
    ensures -1 <= r < |t| - 1
  {
    if First(t, name, 0) < |t| - 1 then First(t, name, 0) else -1
  }

  /** The first free slot from i on, or the end. */
  function FirstFree<T>(t: seq<Slot<T>>, i: nat): (r: nat)
    requires i <= |t|
    ensures i <= r <= |t| && (r < |t| ==> !t[r].used)
    ensures forall k :: i <= k < r ==> t[k].used
    decreases |t| - i
  {
    if i == |t| || !t[i].used then i else FirstFree(t, i + 1)
  }

  /** next_avail_image_ID: the preferred slot if it is free, or the first free one; the end if there is none. */
  function NextFree<T>(t: seq<Slot<T>>, preferred: int): (r: nat)
    ensures r <= |t| && (r < |t| ==> !t[r].used)
    ensures if 0 <= preferred < |t| && !t[preferred].used then r == preferred else forall k :: 0 <= k < r ==> t[k].used
  {
    if 0 <= preferred < |t| && !t[preferred].used then preferred else FirstFree(t, 0)
  }

  /** No two live slots share a name, and the last slot is free. */
  ghost predicate Good<T>(t: seq<Slot<T>>) {
    && |t| >= 1 && !t[|t| - 1].used
    && forall i, j :: 0 <= i < j < |t| && t[i].used && t[j].used ==> t[i].name != t[j].name
  }

  lemma {:induction false} FirstIs<T>(t: seq<Slot<T>>, name: string, i: nat)
    requires i <= |t|
    ensures var r := First(t, name, i);
            (r < |t| ==> Matches(t[r], name)) && forall k :: i <= k < r ==> !Matches(t[k], name)
    decreases |t| - i
  {
    if i < |t| && !Matches(t[i], name) { FirstIs(t, name, i + 1); }
  }

  /** Lookup finds the live slot with the name, or reports that there is none. */
  lemma {:induction false} LookupCorrect<T>(t: seq<Slot<T>>, name: string, i: nat)
    requires Good(t) && i < |t|
    ensures Matches(t[i], name) <==> Lookup(t, name) == i
  {
    FirstIs(t, name, 0);
  }

  /** Slot i of the table now has this name and content. */
  function Take<T>(t: seq<Slot<T>>, i: nat, name: string, content: T): seq<Slot<T>>
    requires i < |t|
  {
    t[i := Slot(true, name, content)]
  }

  lemma {:induction false} TakeGood<T>(t: seq<Slot<T>>, i: nat, name: string, content: T)
    requires Good(t) && i < |t| - 1 && (Lookup(t, name) == -1 || Lookup(t, name) == i)
    ensures Good(Take(t, i, name, content))
  {
    forall k | 0 <= k < |t| && k != i ensures !Matches(t[k], name) {
      LookupCorrect(t, name, k);
    }
  }

  // ----- what the commands do

  /** What an image must agree in to be reused: its type and its sizes. */
  datatype Format = Format(datatype_: nat, size: seq<nat>)

  datatype Tables = Tables(images: seq<Slot<Format>>, vars: seq<Slot<real>>) {
    ghost predicate Sound() {
      Good(images) && Good(vars)
    }

    predicate HasSlots() {
      |images| >= 1 && |vars| >= 1
    }
  }

  datatype Command =
    | CreateImage(name: string, format: Format, preferred: int)
    | DeleteImage(name: string)
    | RenameImage(name: string, newName: string)
    | CreateVariable(name: string, value: real)
    | DeleteVariable(name: string)

  function Freed<T>(t: seq<Slot<T>>, i: int): seq<Slot<T>> {
    if 0 <= i < |t| then t[i := t[i].(used := false)] else t
  }

  /** An image that exists is left as it is; a full table ends the program, which the model leaves as it is. */
  function Step(t: Tables, c: Command): Tables
    requires t.HasSlots()
  {
    match c
    case CreateImage(name, format, preferred) =>
      var i := NextFree(t.images, preferred);
      if Lookup(t.images, name) == -1 && i < |t.images| then t.(images := Take(t.images, i, name, format)) else t
    case DeleteImage(name) => t.(images := Freed(t.images, Lookup(t.images, name)))
    case RenameImage(name, newName) =>
      var i := Lookup(t.images, name);
      if Lookup(t.images, newName) == -1 && Lookup(t.vars, newName) == -1 && i != -1
      then t.(images := t.images[i := t.images[i].(name := newName)]) else t
    case CreateVariable(name, value) =>
      var i := if Lookup(t.vars, name) != -1 then Lookup(t.vars, name) else FirstFree(t.vars, 0);
      if Lookup(t.images, name) == -1 && i < |t.vars| then t.(vars := Take(t.vars, i, name, value)) else t
    case DeleteVariable(name) => t.(vars := Freed(t.vars, Lookup(t.vars, name)))
  }

  /** There is a free slot before the last one. */
  predicate Room<T>(t: seq<Slot<T>>) {
    FirstFree(t, 0) + 1 < |t|
  }

  /** The command leaves the last slot free. */
  predicate LeavesLast(t: Tables, c: Command)
    requires t.HasSlots()
  {
    match c
    case CreateImage(name, _, preferred) =>
      Lookup(t.images, name) == -1 ==> Room(t.images) && preferred != |t.images| - 1
    case CreateVariable(name, _) => Lookup(t.vars, name) == -1 ==> Room(t.vars)
    case _ => true
  }

  lemma {:induction false} FreedGood<T>(t: seq<Slot<T>>, i: int)
    requires Good(t)
    ensures Good(Freed(t, i))
  {
  }

  lemma {:induction false} StepGood(t: Tables, c: Command)
    requires t.Sound() && LeavesLast(t, c)
    ensures Step(t, c).Sound() && |Step(t, c).images| == |t.images| && |Step(t, c).vars| == |t.vars|
  {
    match c {
      case CreateImage(name, format, preferred) =>
        if Lookup(t.images, name) == -1 { TakeGood(t.images, NextFree(t.images, preferred), name, format); }
      case DeleteImage(name) => FreedGood(t.images, Lookup(t.images, name));
      case RenameImage(name, newName) =>
        var i := Lookup(t.images, name);
        if Lookup(t.images, newName) == -1 && i != -1 {
          LookupCorrect(t.images, name, i);
          TakeGood(t.images, i, newName, t.images[i].content);
          assert t.images[i := t.images[i].(name := newName)] == Take(t.images, i, newName, t.images[i].content);
        }
      case CreateVariable(name, value) =>
        var i := if Lookup(t.vars, name) != -1 then Lookup(t.vars, name) else FirstFree(t.vars, 0);
        TakeGood(t.vars, i, name, value);
      case DeleteVariable(name) => FreedGood(t.vars, Lookup(t.vars, name));
    }
  }

  /** The tables after n commands. */
  function Run(t0: Tables, cs: seq<Command>, n: nat): (t: Tables)
    requires t0.HasSlots() && n <= |cs|
    ensures t.HasSlots()
  {
    if n == 0 then t0 else Step(Run(t0, cs, n - 1), cs[n - 1])
  }

  ghost predicate Spares(t0: Tables, cs: seq<Command>, k: nat)
    requires t0.HasSlots() && k < |cs|
  {
    LeavesLast(Run(t0, cs, k), cs[k])
  }

  /** Nothing is in use. */
  ghost predicate Empty(t: Tables) {
    t.HasSlots() && (forall i :: 0 <= i < |t.images| ==> !t.images[i].used) && (forall i :: 0 <= i < |t.vars| ==> !t.vars[i].used)
  }

  /** Main result: in every run from empty tables that leaves the last slots free, no two live images and no
      two live variables share a name. */
  lemma {:induction false} NamesStayUnique(t0: Tables, cs: seq<Command>, n: nat)
    requires Empty(t0) && n <= |cs| && forall k :: 0 <= k < n ==> Spares(t0, cs, k)
    ensures Run(t0, cs, n).Sound()
  {
    if n > 0 {
      NamesStayUnique(t0, cs, n - 1);
      assert Spares(t0, cs, n - 1);
      StepGood(Run(t0, cs, n - 1), cs[n - 1]);
    }
  }

  // ----- a live image keeps its slot

  /** The command is not the deletion of image i. */
  predicate Keeps(t: Tables, c: Command, i: nat)
    requires t.HasSlots()
  {
    !(c.DeleteImage? && i < |t.images| && Matches(t.images[i], c.name))
  }

  lemma {:induction false} StepKeepsSlot(t: Tables, c: Command, i: nat)
    requires t.Sound() && i < |t.images| && t.images[i].used && Keeps(t, c, i)
    ensures i < |Step(t, c).images| && Step(t, c).images[i].used && Step(t, c).images[i].content == t.images[i].content
    ensures Step(t, c).images[i].name ==
            if c.RenameImage? && c.name == t.images[i].name && Lookup(t.images, c.newName) == -1 && Lookup(t.vars, c.newName) == -1
            then c.newName else t.images[i].name
  {
    match c {
      case DeleteImage(name) => LookupCorrect(t.images, name, i);
      case RenameImage(name, _) => LookupCorrect(t.images, name, i);
      case _ =>
    }
  }

  ghost predicate KeptAt(t0: Tables, cs: seq<Command>, k: nat, i: nat)
    requires t0.HasSlots() && k < |cs|
  {
    Spares(t0, cs, k) && Keeps(Run(t0, cs, k), cs[k], i)
  }

  /** Main result: an image that is live after m commands is in the same slot with the same content after n,
      unless it is deleted in between. */
  lemma {:induction false} SlotIsStable(t0: Tables, cs: seq<Command>, m: nat, n: nat, i: nat)
    requires t0.HasSlots() && m <= n <= |cs| && Run(t0, cs, m).Sound()
    requires i < |Run(t0, cs, m).images| && Run(t0, cs, m).images[i].used
    requires forall k :: m <= k < n ==> KeptAt(t0, cs, k, i)
    ensures Run(t0, cs, n).Sound() && i < |Run(t0, cs, n).images|
    ensures Run(t0, cs, n).images[i].used && Run(t0, cs, n).images[i].content == Run(t0, cs, m).images[i].content
    ensures Lookup(Run(t0, cs, n).images, Run(t0, cs, n).images[i].name) == i
  {
    if m < n {
      SlotIsStable(t0, cs, m, n - 1, i);
      assert KeptAt(t0, cs, n - 1, i);
      StepGood(Run(t0, cs, n - 1), cs[n - 1]);
      StepKeepsSlot(Run(t0, cs, n - 1), cs[n - 1], i);
    }
    LookupCorrect(Run(t0, cs, n).images, Run(t0, cs, n).images[i].name, i);
  }

  // ----- the tables as maps

  /** What the first n slots hold, by name. */
  function AsMap<T>(t: seq<Slot<T>>, n: nat): map<string, T>
    requires n <= |t|
  {
    if n == 0 then map[]
    else if t[n - 1].used then AsMap(t, n - 1)[t[n - 1].name := t[n - 1].content]
    else AsMap(t, n - 1)
  }

  lemma {:induction false} AsMapHas<T>(t: seq<Slot<T>>, n: nat, name: string)
    requires Good(t) && n <= |t|
    ensures name in AsMap(t, n) <==> 0 <= Lookup(t, name) < n
    ensures name in AsMap(t, n) ==> AsMap(t, n)[name] == t[Lookup(t, name)].content
  {
    if n > 0 {
      AsMapHas(t, n - 1, name);
      LookupCorrect(t, name, n - 1);
    }
  }

  /** Where a name is found in two tables decides whether they are the same map. */
  lemma {:induction false} MapIs<T>(t: seq<Slot<T>>, m: map<string, T>)
    requires Good(t)
    requires forall name: string :: Found(t, m, name)
    ensures AsMap(t, |t|) == m
  {
    forall name: string ensures name in AsMap(t, |t|) <==> name in m {
      AsMapHas(t, |t|, name);
      assert Found(t, m, name);
    }
    forall name: string | name in m ensures AsMap(t, |t|)[name] == m[name] {
      AsMapHas(t, |t|, name);
      assert Found(t, m, name);
    }
  }

  ghost predicate Found<T>(t: seq<Slot<T>>, m: map<string, T>, name: string)
    requires |t| >= 1
  {
    if name in m then Lookup(t, name) >= 0 && t[Lookup(t, name)].content == m[name] else Lookup(t, name) == -1
  }

  /** Taking a slot for a name puts the name into the map. */
  lemma {:induction false} TakeIsPut<T>(t: seq<Slot<T>>, i: nat, name: string, content: T)
    requires Good(t) && i < |t| - 1 && (if Lookup(t, name) == -1 then !t[i].used else Lookup(t, name) == i)
    ensures Good(Take(t, i, name, content))
    ensures AsMap(Take(t, i, name, content), |t|) == AsMap(t, |t|)[name := content]
  {
    TakeGood(t, i, name, content);
    LookupCorrect(t, name, i);
    var t', m := Take(t, i, name, content), AsMap(t, |t|)[name := content];
    forall other: string ensures Found(t', m, other) {
      AsMapHas(t, |t|, other);
      if other == name {
        LookupCorrect(t', name, i);
      } else {
        SameElsewhere(t, t', i, other);
      }
    }
    MapIs(t', m);
  }

  /** A name that slot i has neither before nor after is found where it was. */
  lemma {:induction false} SameElsewhere<T>(t: seq<Slot<T>>, t': seq<Slot<T>>, i: nat, other: string)
    requires Good(t) && Good(t') && i < |t| == |t'| && t' == t[i := t'[i]] && !Matches(t[i], other) && !Matches(t'[i], other)
    ensures Lookup(t', other) == Lookup(t, other) && Lookup(t, other) != i
  {
    var r := Lookup(t, other);
    LookupCorrect(t, other, i);
    if r != -1 {
      LookupCorrect(t, other, r);
      LookupCorrect(t', other, r);
    } else if Lookup(t', other) != -1 {
      LookupCorrect(t', other, Lookup(t', other));
      LookupCorrect(t', other, i);
      LookupCorrect(t, other, Lookup(t', other));
    }
  }

  /** Freeing the slot of a name takes the name out of the map. */
  lemma {:induction false} FreedIsRemoved<T>(t: seq<Slot<T>>, name: string)
    requires Good(t)
    ensures Good(Freed(t, Lookup(t, name)))
    ensures AsMap(Freed(t, Lookup(t, name)), |t|) == AsMap(t, |t|) - {name}
  {
    var i := Lookup(t, name);
    FreedGood(t, i);
    var t', m := Freed(t, i), AsMap(t, |t|) - {name};
    forall other: string ensures Found(t', m, other) {
      AsMapHas(t, |t|, other);
      AsMapHas(t, |t|, name);
      if i != -1 {
        LookupCorrect(t, name, i);
        if other == name {
          if Lookup(t', name) != -1 {
            LookupCorrect(t', name, Lookup(t', name));
            LookupCorrect(t, name, Lookup(t', name));
          }
        } else {
          SameElsewhere(t, t', i, other);
        }
      }
    }
    MapIs(t', m);
  }

  /** Renaming moves the content to a name that was not there. */
  lemma {:induction false} RenamedIsMoved<T>(t: seq<Slot<T>>, name: string, newName: string)
    requires Good(t) && Lookup(t, name) != -1 && Lookup(t, newName) == -1
    ensures var i, m := Lookup(t, name), AsMap(t, |t|);
            && name in m && name != newName && Good(t[i := t[i].(name := newName)])
            && AsMap(t[i := t[i].(name := newName)], |t|) == (m - {name})[newName := m[name]]
  {
    AsMapHas(t, |t|, name);
    var i := Lookup(t, name);
    LookupCorrect(t, name, i);
    TakeGood(t, i, newName, t[i].content);
    var t', m := t[i := t[i].(name := newName)], (AsMap(t, |t|) - {name})[newName := AsMap(t, |t|)[name]];
    assert t' == Take(t, i, newName, t[i].content);
    forall other: string ensures Found(t', m, other) {
      AsMapHas(t, |t|, other);
      if other == newName {
        LookupCorrect(t', newName, i);
      } else if other == name {
        if Lookup(t', name) != -1 {
          LookupCorrect(t', name, Lookup(t', name));
          LookupCorrect(t, name, Lookup(t', name));
        }
      } else {
        SameElsewhere(t, t', i, other);
      }
    }
    MapIs(t', m);
  }

  /** Main result: creating, deleting and renaming do to the tables seen as maps what their names say. */
  lemma {:induction false} TablesAreMaps(t: Tables, c: Command)
    requires t.Sound() && LeavesLast(t, c)
    ensures var t' := Step(t, c);
            match c
            case CreateImage(name, format, _) =>
              AsMap(t'.images, |t.images|) ==
              (if name in AsMap(t.images, |t.images|) then AsMap(t.images, |t.images|) else AsMap(t.images, |t.images|)[name := format])
            case DeleteImage(name) => AsMap(t'.images, |t.images|) == AsMap(t.images, |t.images|) - {name}
            case CreateVariable(name, value) =>
              AsMap(t'.vars, |t.vars|) ==
              (if name in AsMap(t.images, |t.images|) then AsMap(t.vars, |t.vars|) else AsMap(t.vars, |t.vars|)[name := value])
            case DeleteVariable(name) => AsMap(t'.vars, |t.vars|) == AsMap(t.vars, |t.vars|) - {name}
            case RenameImage(name, newName) =>
              var m := AsMap(t.images, |t.images|);
              AsMap(t'.images, |t.images|) ==
              (if name in m && newName !in m && newName !in AsMap(t.vars, |t.vars|) then (m - {name})[newName := m[name]] else m)
  {
    match c {
      case CreateImage(name, format, preferred) =>
        AsMapHas(t.images, |t.images|, name);
        if Lookup(t.images, name) == -1 { TakeIsPut(t.images, NextFree(t.images, preferred), name, format); }
      case DeleteImage(name) => FreedIsRemoved(t.images, name);
      case CreateVariable(name, value) =>
        AsMapHas(t.images, |t.images|, name);
        var i := if Lookup(t.vars, name) != -1 then Lookup(t.vars, name) else FirstFree(t.vars, 0);
        TakeIsPut(t.vars, i, name, value);
      case DeleteVariable(name) => FreedIsRemoved(t.vars, name);
      case RenameImage(name, newName) =>
        AsMapHas(t.images, |t.images|, name);
        AsMapHas(t.images, |t.images|, newName);
        AsMapHas(t.vars, |t.vars|, newName);
        if Lookup(t.images, name) != -1 && Lookup(t.images, newName) == -1 { RenamedIsMoved(t.images, name, newName); }
    }
  }

  // ----- where it goes wrong

  /** Once the last slot is taken the new image cannot be found again, and creating it once more finds no
      slot at all: so the free last slot is needed. */
  lemma {:induction false} LastSlotIsLost(t: Tables, name: string, format: Format)
    requires t.Sound() && Lookup(t.images, name) == -1 && !Room(t.images)
    ensures var t' := Step(t, CreateImage(name, format, -1));
            && Matches(t'.images[|t.images| - 1], name) && Lookup(t'.images, name) == -1
            && NextFree(t'.images, -1) == |t.images|
  {
    var n := |t.images| - 1;
    var t' := Step(t, CreateImage(name, format, -1));
    assert FirstFree(t.images, 0) == n;
    forall k | 0 <= k < n ensures !Matches(t'.images[k], name) {
      LookupCorrect(t.images, name, k);
    }
    FirstIs(t'.images, name, 0);
  }

  /** A variable and an image can come to share a name only by creating an image with the name of a variable. */
  lemma {:induction false} SharedName(t: Tables, c: Command, name: string)
    requires t.Sound() && LeavesLast(t, c) && !(Lookup(t.images, name) != -1 && Lookup(t.vars, name) != -1)
    ensures var t' := Step(t, c);
            Lookup(t'.images, name) != -1 && Lookup(t'.vars, name) != -1 <==>
            c.CreateImage? && c.name == name && Lookup(t.vars, name) != -1
  {
    StepGood(t, c);
    var t' := Step(t, c);
    AsMapHas(t.images, |t.images|, name);
    AsMapHas(t.vars, |t.vars|, name);
    AsMapHas(t'.images, |t.images|, name);
    AsMapHas(t'.vars, |t.vars|, name);
    if c.RenameImage? {
      RenamedName(t, c.name, c.newName, name);
    } else {
      TablesAreMaps(t, c);
    }
  }

  lemma {:induction false} RenamedName(t: Tables, from: string, to: string, name: string)
    requires t.Sound()
    ensures var t' := Step(t, RenameImage(from, to));
            && t'.vars == t.vars && t'.Sound() && |t'.images| == |t.images|
            && (Lookup(t'.images, name) != -1 ==> Lookup(t.images, name) != -1 || (name == to && Lookup(t.vars, to) == -1))
  {
    StepGood(t, RenameImage(from, to));
    var t' := Step(t, RenameImage(from, to));
    var i := Lookup(t'.images, name);
    if i != -1 && t' != t {
      LookupCorrect(t'.images, name, i);
      LookupCorrect(t.images, name, i);
    }
  }

  // ----- the code over the tables

  class NameTables {
    const images: array<Slot<Format>>
    const vars: array<Slot<real>>

    ghost predicate Valid()
      reads this
    {
      images.Length >= 1 && vars.Length >= 1
    }

    ghost function State(): Tables
      reads this, images, vars
    {
      Tables(images[..], vars[..])
    }

    constructor (maxImages: nat, maxVariables: nat)
      requires maxImages >= 1 && maxVariables >= 1
      ensures Valid() && Empty(State()) && images.Length == maxImages && vars.Length == maxVariables
      ensures fresh(images) && fresh(vars)
    {
      images := new Slot<Format>[maxImages](_ => Slot(false, "", Format(0, [])));
      vars := new Slot<real>[maxVariables](_ => Slot(false, "", 0.0));
    }

    /** The lookup loop; it also ends with the last slot. */
    static method Find<T(==)>(table: array<Slot<T>>, name: string) returns (id: int)
      requires table.Length >= 1
      ensures id == Lookup(table[..], name)
    {
      id := 0;
      var i := 0;
      var loopOK := true;
      while loopOK
        invariant i <= table.Length && (loopOK ==> i < table.Length)
        invariant loopOK ==> First(table[..], name, 0) == First(table[..], name, i)
        invariant !loopOK ==> id == Lookup(table[..], name)
        decreases loopOK, table.Length - i
      {
        if table[i].used {
          if table[i].name == name {
            loopOK := false;
            id := i;
          }
        }
        i := i + 1;
        if i == table.Length {
          loopOK := false;
          id := -1;
        }
      }
    }

    /** The next free image slot; the table length if there is none. */
    method NextImage(preferred: int) returns (id: nat)
      ensures id == NextFree(images[..], preferred)
    {
      if preferred > -1 && preferred < images.Length && !images[preferred].used {
        return preferred;
      }
      id := images.Length;
      for i := 0 to images.Length
        invariant id == images.Length && FirstFree(images[..], 0) == FirstFree(images[..], i)
      {
        if !images[i].used {
          return i;
        }
      }
    }

    /** The next free variable slot, found in a loop that goes on to the end. */
    method NextVariable() returns (id: nat)
      ensures id == FirstFree(vars[..], 0)
    {
      id := vars.Length;
      var found := false;
      for i := 0 to vars.Length
        invariant !found ==> id == vars.Length && FirstFree(vars[..], 0) == FirstFree(vars[..], i)
        invariant found ==> id == FirstFree(vars[..], 0)
      {
        if !vars[i].used && !found {
          id, found := i, true;
        }
      }
    }

    /** create_image_ID; `ok` is false when an image of the name has another format, or no slot is left. */
    method MakeImage(name: string, format: Format, preferred: int) returns (id: int, ok: bool)
      requires Valid()
      modifies images
      ensures State() == old(Step(State(), CreateImage(name, format, preferred)))
      ensures ok ==> 0 <= id < images.Length && images[id] == Slot(true, images[id].name, format) && images[id].name == name
      // an image of the name is reused if it has the format; otherwise a free slot is needed, the preferred one if it is free
      ensures var t := old(images[..]);
              ok <==> if Lookup(t, name) != -1 then t[Lookup(t, name)].content == format else exists k :: 0 <= k < |t| && !t[k].used
      ensures var t := old(images[..]);
              ok ==> if Lookup(t, name) != -1 then id == Lookup(t, name)
                     else 0 <= preferred < |t| && !t[preferred].used ==> id == preferred
    {
      id := Find(images, name);
      if id == -1 {
        var free := NextImage(preferred);
        if free == images.Length { return -1, false; }
        ghost var before := images[..];
        images[free] := Slot(true, name, format);
        assert images[..] == Take(before, free, name, format);
        return free, true;
      }
      FirstIs(images[..], name, 0);
      ok := images[id].content == format;
    }

    /** delete_image_ID. */
    method RemoveImage(name: string)
      requires Valid()
      modifies images
      ensures State() == old(Step(State(), DeleteImage(name)))
    {
      var id := Find(images, name);
      if id != -1 {
        images[id] := images[id].(used := false);
      }
    }

    /** chname_image_ID, for an image that exists. */
    method ChangeName(name: string, newName: string)
      requires Valid() && Lookup(images[..], name) != -1
      modifies images
      ensures State() == old(Step(State(), RenameImage(name, newName)))
    {
      var inUse := Find(images, newName);
      if inUse == -1 {
        inUse := Find(vars, newName);
      }
      if inUse == -1 {
        var id := Find(images, name);
        images[id] := images[id].(name := newName);
      }
    }

    /** create_variable_ID; -1 when an image has the name.  Without a free slot the program would write behind
        the table; the model then changes nothing. */
    method SetVariable(name: string, value: real) returns (id: int)
      requires Valid()
      modifies vars
      ensures State() == old(Step(State(), CreateVariable(name, value)))
      ensures id == -1 <==> Lookup(images[..], name) != -1
      // the slot the variable had, or the first free one; behind the table when there is none
      ensures var t := old(vars[..]);
              id != -1 ==> if Lookup(t, name) != -1 then id == Lookup(t, name)
                           else 0 <= id <= |t| && (forall k :: 0 <= k < id ==> t[k].used) && (id < |t| ==> !t[id].used)
    {
      var i1 := Find(images, name);
      var i2 := Find(vars, name);
      id := -1;
      if i1 == -1 {
        if i2 != -1 {
          id := i2;
        } else {
          id := NextVariable();
        }
        if id < vars.Length {
          ghost var before := vars[..];
          vars[id] := Slot(true, name, value);
          assert vars[..] == Take(before, id, name, value);
        }
      }
    }

    /** delete_variable_ID. */
    method RemoveVariable(name: string)
      requires Valid()
      modifies vars
      ensures State() == old(Step(State(), DeleteVariable(name)))
    {
      var id := Find(vars, name);
      if id != -1 {
        vars[id] := vars[id].(used := false);
      }
    }
  }
}
