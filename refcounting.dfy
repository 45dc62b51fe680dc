/** refcountingsingleton.go: one shared instance of something, created on the first get, counted
    on every further get, and dropped when the last holder releases it. The mutex that serialises
    get and release is not part of this module: each call is one atomic step. */
module RefCounting {
  import opened Results

  /** The two fields: the held object (None for nil) and the number of holders. */
  datatype Singleton<T> = Singleton(held: Option<T>, counter: int)

  /** The zero value of the struct: nothing held. */
  function Empty<T>(): Singleton<T> { Singleton(None, 0) }

  /** A held object has a holder. The reverse fails when init returned nil: nil is then stored
      with the counter at 1. */
  predicate Inv<T>(s: Singleton<T>) {
    s.counter >= 0 && (s.held.Some? ==> s.counter >= 1)
  }

  /** The outcome of get: the new state, the object handed out (None for nil), and whether init
      was called. */
  datatype Got<T> = Got(state: Singleton<T>, handed: Option<T>, initialized: bool)

  /**
   * get, where made is what init would return (None for nil): a held object is handed out again
   * and counted; otherwise init is called and what it returns is stored, with the counter at 1,
   * and handed out.
   */
  function GetStep<T>(s: Singleton<T>, made: Option<T>): (g: Got<T>)
    ensures Inv(s) ==> Inv(g.state)
    ensures g.initialized <==> s.held.None?
    ensures g.state.held == g.handed
    ensures g.initialized ==> g.handed == made && g.state.counter == 1
    ensures !g.initialized ==> g.handed == s.held && g.state.counter == s.counter + 1
  {
    if s.held.Some? then Got(Singleton(s.held, s.counter + 1), s.held, false)
    else Got(Singleton(made, 1), made, true)
  }

  /** When init returns nil, nil is stored with the counter at 1: the next get calls init again and
      starts the count afresh, and releasing nil panics. */
  lemma NilInitReinits<T>(s: Singleton<T>, made: Option<T>)
    requires s.held.None?
    ensures var g := GetStep(s, None);
      && g.handed == None && g.state == Singleton(None, 1)
      && GetStep(g.state, made).initialized && GetStep(g.state, made).state == Singleton(made, 1)
      && ReleaseStep(g.state, None) == Err(Fault)
  {
  }

  /** The outcome of release: the new state, and whether the released holder was the last one. */
  datatype Released<T> = Released(state: Singleton<T>, last: bool)

  /**
   * release: releasing another object than the held one, or releasing when nothing is held,
   * panics; otherwise the count drops by one and at zero the object is dropped.
   */
  function ReleaseStep<T(==)>(s: Singleton<T>, released: Option<T>): (r: Result<Released<T>>)
    ensures r.Err? <==> s.held != released || s.held.None?
    ensures r.Err? ==> r.error == Fault
    ensures Inv(s) && r.Ok? ==> Inv(r.value.state)
    ensures r.Ok? ==> r.value.state.counter == s.counter - 1
    ensures r.Ok? ==> (r.value.last <==> s.counter == 1)
    ensures r.Ok? ==> r.value.state.held == if r.value.last then None else s.held
  {
    if s.held != released then Err(Fault)
    else if s.held.None? then Err(Fault)
    else if s.counter - 1 == 0 then Ok(Released(Singleton(None, 0), true))
    else Ok(Released(Singleton(s.held, s.counter - 1), false))
  }

  /** n gets in a row, each with init returning made. */
  function Gets<T>(s: Singleton<T>, made: Option<T>, n: nat): Singleton<T>
    decreases n
  {
    if n == 0 then s else Gets(GetStep(s, made).state, made, n - 1)
  }

  /** n releases of an object in a row; the panic of any of them ends the run. */
  function Releases<T(==)>(s: Singleton<T>, released: Option<T>, n: nat): Result<Singleton<T>>
    decreases n
  {
    if n == 0 then Ok(s)
    else match ReleaseStep(s, released)
      case Err(e) => Err(e)
      case Ok(r) => Releases(r.state, released, n - 1)
  }

  /** From nothing, n ≥ 1 gets hold the first init's object, counted n times. */
  lemma {:induction false} GetsCount<T>(made: T, n: nat)
    requires n >= 1
    ensures Gets(Empty(), Some(made), n) == Singleton(Some(made), n)
  {
    if n > 1 {
      GetsHeld(Singleton(Some(made), 1), Some(made), n - 1);
    }
  }

  /** From nothing, with init returning nil, every get calls init again: nil stays stored with the
      counter at 1, however many gets there were. */
  lemma {:induction false} GetsNil<T>(s: Singleton<T>, n: nat)
    requires s.held.None? && n >= 1
    ensures Gets(s, None, n) == Singleton(None, 1)
    decreases n
  {
    if n > 1 {
      GetsNil(GetStep(s, None).state, n - 1);
    }
  }

  /** With an object held, gets never call init and only count. */
  lemma {:induction false} GetsHeld<T>(s: Singleton<T>, made: Option<T>, n: nat)
    requires s.held.Some?
    ensures Gets(s, made, n) == Singleton(s.held, s.counter + n)
    decreases n
  {
    if n > 0 {
      GetsHeld(GetStep(s, made).state, made, n - 1);
    }
  }

  /** Releasing as often as it was got returns to nothing held; fewer releases keep it held. */
  lemma {:induction false} ReleasesCount<T>(o: T, c: nat, n: nat)
    requires 1 <= c && n <= c
    ensures Releases(Singleton(Some(o), c), Some(o), n) ==
      Ok(if n == c then Empty() else Singleton(Some(o), c - n))
  {
    if n > 0 && c > 1 {
      ReleasesCount(o, c - 1, n - 1);
    }
  }

  /** One release more than gets panics. */
  lemma {:induction false} ReleaseTooOften<T>(o: T, c: nat)
    requires c >= 1
    ensures Releases(Singleton(Some(o), c), Some(o), c + 1) == Err(Fault)
  {
    if c > 1 {
      ReleaseTooOften(o, c - 1);
    }
  }

  /** refCountingSingleton; the field object is called held here, object being a reserved word. */
  class RefCountingSingleton<T(==)> {
    var held: Option<T>
    var counter: int

    function State(): Singleton<T>
      reads this
    {
      Singleton(held, counter)
    }

    /** The zero value. */
    constructor ()
      ensures State() == Empty()
    {
      held, counter := None, 0;
    }

    /** get(init), where init would return made (None for nil). */
    method Get(made: Option<T>) returns (obj: Option<T>, initialized: bool)
      modifies this
      ensures Got(State(), obj, initialized) == GetStep(old(State()), made)
    {
      if held.Some? {
        counter := counter + 1;
        return held, false;
      }
      held := made;
      counter := 1;
      return made, true;
    }

    /** release(obj): true when the last holder released it; a panic is Err(Fault) and changes nothing. */
    method Release(obj: Option<T>) returns (r: Result<bool>)
      modifies this
      ensures var step := ReleaseStep(old(State()), obj);
        if step.Err? then r == Err(step.error) && State() == old(State())
        else r == Ok(step.value.last) && State() == step.value.state
    {
      if held != obj {
        return Err(Fault);
      }
      if held.None? {
        return Err(Fault);
      }
      counter := counter - 1;
      if counter == 0 {
        held := None;
        return Ok(true);
      }
      return Ok(false);
    }
  }
}
