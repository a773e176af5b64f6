/** ring: the last lines of an instance's output. */
module Ring {

  function LastN<T>(s: seq<T>, n: nat): seq<T> {
    if |s| <= n then s else s[|s| - n..]
  }

  class Ring {
    var lines: seq<string>
    const n: nat
    ghost var pushed: seq<string>

    /** The buffer holds exactly the last n lines ever pushed. */
    ghost predicate Valid()
      reads this
    {
      n > 0 && lines == LastN(pushed, n)
    }

    constructor (n: nat)
      requires n > 0
      ensures Valid() && pushed == [] && this.n == n
    {
      this.n, lines, pushed := n, [], [];
    }

    method Push(s: string)
      requires Valid()
      modifies this
      ensures Valid() && pushed == old(pushed) + [s]
    {
      if |lines| >= n {
        lines := lines[1..];
      }
      lines := lines + [s];
      pushed := pushed + [s];
    }

    /** The lines last() joins: the three most recent of all that were pushed, or fewer while
        fewer were. */
    method Last() returns (recent: seq<string>)
      requires Valid()
      ensures recent == LastN(LastN(pushed, 3), n)
    {
      var from := if |lines| < 3 then 0 else |lines| - 3;
      recent := lines[from..];
    }
  }
}
