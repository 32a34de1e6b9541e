/** The Levenshtein distance that a PassjoinIndex is built for, and the facts about
    alignments that make partition-based search complete. */
module Levenshtein {

  function Min(x: nat, y: nat): nat {
    if x <= y then x else y
  }

  function Abs(x: int): nat {
    if x < 0 then -x else x
  }

  /** The classic recurrence: drop a head, or pair the two heads. */
  function Distance<T(==)>(a: seq<T>, b: seq<T>): nat
    decreases |a| + |b|
  {
    if a == [] then |b|
    else if b == [] then |a|
    else
      Min(Min(Distance(a[1..], b) + 1, Distance(a, b[1..]) + 1),
          Distance(a[1..], b[1..]) + if a[0] == b[0] then 0 else 1)
  }

  /** The recurrence where both sides have a head, for proofs that keep the definition hidden. */
  lemma {:induction false} Recurrence<T>(a: seq<T>, b: seq<T>)
    requires a != [] && b != []
    ensures Distance(a, b) == Min(Min(Distance(a[1..], b) + 1, Distance(a, b[1..]) + 1),
                                  Distance(a[1..], b[1..]) + if a[0] == b[0] then 0 else 1)
  {
  }

  lemma {:induction false} Symmetric<T>(a: seq<T>, b: seq<T>)
    ensures Distance(a, b) == Distance(b, a)
    decreases |a| + |b|
  {
    if a != [] && b != [] {
      Symmetric(a[1..], b);
      Symmetric(a, b[1..]);
      Symmetric(a[1..], b[1..]);
    }
  }

  /** The distance is at least the difference of the lengths and at most the larger length. */
  lemma {:induction false} LengthBounds<T>(a: seq<T>, b: seq<T>)
    ensures Abs(|a| - |b|) <= Distance(a, b)
    ensures Distance(a, b) <= if |a| <= |b| then |b| else |a|
    decreases |a| + |b|
  {
    if a != [] && b != [] {
      LengthBounds(a[1..], b);
      LengthBounds(a, b[1..]);
      LengthBounds(a[1..], b[1..]);
    }
  }

  lemma {:induction false} ZeroIffEqual<T>(a: seq<T>, b: seq<T>)
    ensures Distance(a, b) == 0 <==> a == b
    decreases |a| + |b|
  {
    if a != [] && b != [] {
      ZeroIffEqual(a[1..], b[1..]);
      if a[0] == b[0] {
        assert a == [a[0]] + a[1..] && b == [b[0]] + b[1..];
      }
    }
  }

  /** Dropping the head of one side changes the distance by at most one. */
  lemma {:induction false} HeadCost<T>(a: seq<T>, b: seq<T>)
    requires a != []
    ensures Distance(a, b) <= Distance(a[1..], b) + 1
    ensures Distance(a[1..], b) <= Distance(a, b) + 1
    decreases |a| + |b|
  {
    if b != [] {
      Symmetric(a, b);
      Symmetric(a[1..], b);
      if |a| > 1 {
        HeadCost(a[1..], b);
      }
      HeadCost(a, b[1..]);
      if |a| == 1 {
        LengthBounds(a, b);
      }
    }
  }

  /** The distance never exceeds the cost of going through a third string. */
  lemma {:induction false} Triangle<T>(a: seq<T>, b: seq<T>, c: seq<T>)
    ensures Distance(a, c) <= Distance(a, b) + Distance(b, c)
    decreases |a| + |b| + |c|
  {
    if a == [] || c == [] {
      LengthBounds(a, b);
      LengthBounds(b, c);
    } else if b == [] {
      LengthBounds(a, c);
    } else {
      var ab := Distance(a, b);
      var bc := Distance(b, c);
      if ab == Distance(a[1..], b) + 1 {
        Triangle(a[1..], b, c);
        HeadCost(a, c);
      } else if bc == Distance(b, c[1..]) + 1 {
        Triangle(a, b, c[1..]);
      } else if ab == Distance(a, b[1..]) + 1 {
        if bc == Distance(b[1..], c) + 1 {
          Triangle(a, b[1..], c);
        } else {
          Triangle(a, b[1..], c[1..]);
        }
      } else if bc == Distance(b[1..], c) + 1 {
        Triangle(a[1..], b[1..], c);
        HeadCost(a, c);
      } else {
        Triangle(a[1..], b[1..], c[1..]);
      }
    }
  }

  /** An optimal alignment restricted to a prefix of one side cuts the other side in two,
      and the two parts together cost no more than the whole. */
  lemma {:induction false} Split<T>(x: seq<T>, y: seq<T>, q: seq<T>) returns (cut: nat)
    ensures cut <= |q|
    ensures Distance(x, q[..cut]) + Distance(y, q[cut..]) <= Distance(x + y, q)
    decreases |x| + |q|
  {
    hide Distance;
    LengthBounds(x, q[..0]);
    if x == [] {
      assert x + y == y && q[0..] == q;
      return 0;
    }
    assert (x + y)[1..] == x[1..] + y;
    if q == [] {
      LengthBounds(y, q);
      LengthBounds(x + y, q);
      return 0;
    }
    Recurrence(x + y, q);
    if Distance(x + y, q) == Distance(x[1..] + y, q) + 1 {
      cut := Split(x[1..], y, q);
      HeadCost(x, q[..cut]);
    } else if Distance(x + y, q) == Distance(x + y, q[1..]) + 1 {
      cut := Split(x, y, q[1..]);
      cut := cut + 1;
      assert q[..cut][1..] == q[1..][..cut - 1] && q[cut..] == q[1..][cut - 1..];
      Recurrence(x, q[..cut]);
    } else {
      cut := Split(x[1..], y, q[1..]);
      cut := cut + 1;
      assert q[..cut][1..] == q[1..][..cut - 1] && q[cut..] == q[1..][cut - 1..];
      Recurrence(x, q[..cut]);
    }
  }

  /** A single-character edit; one whose position is out of range changes nothing. */
  datatype Edit<T> = Insert(at: nat, c: T) | Delete(at: nat) | Replace(at: nat, c: T)
  {
    function Apply(a: seq<T>): seq<T> {
      match this
      case Insert(at, c) => if at <= |a| then a[..at] + [c] + a[at..] else a
      case Delete(at) => if at < |a| then a[..at] + a[at + 1..] else a
      case Replace(at, c) => if at < |a| then a[..at] + [c] + a[at + 1..] else a
    }

    function Shift(): Edit<T> {
      this.(at := at + 1)
    }
  }

  function Run<T>(script: seq<Edit<T>>, a: seq<T>): seq<T> {
    if script == [] then a else Run(script[1..], script[0].Apply(a))
  }

  function ShiftAll<T>(script: seq<Edit<T>>): seq<Edit<T>> {
    if script == [] then [] else [script[0].Shift()] + ShiftAll(script[1..])
  }

  lemma ShiftedEdit<T>(e: Edit<T>, head: T, a: seq<T>)
    ensures e.Shift().Apply([head] + a) == [head] + e.Apply(a)
  {
    var at := e.at;
    var whole := [head] + a;
    if at <= |a| {
      assert whole[..at + 1] == [head] + a[..at];
      assert whole[at + 1..] == a[at..];
    }
    if at < |a| {
      assert whole[at + 2..] == a[at + 1..];
    }
    match e
    case Insert(_, c) =>
      if at <= |a| {
        assert ([head] + a[..at]) + [c] + a[at..] == [head] + (a[..at] + [c] + a[at..]);
      }
    case Delete(_) =>
      if at < |a| {
        assert ([head] + a[..at]) + a[at + 1..] == [head] + (a[..at] + a[at + 1..]);
      }
    case Replace(_, c) =>
      if at < |a| {
        assert ([head] + a[..at]) + [c] + a[at + 1..] == [head] + (a[..at] + [c] + a[at + 1..]);
      }
  }

  lemma {:induction false} ShiftKeepsHead<T>(script: seq<Edit<T>>, head: T, a: seq<T>)
    ensures |ShiftAll(script)| == |script|
    ensures Run(ShiftAll(script), [head] + a) == [head] + Run(script, a)
  {
    if script != [] {
      ShiftedEdit(script[0], head, a);
      ShiftKeepsHead(script[1..], head, script[0].Apply(a));
      assert ShiftAll(script)[1..] == ShiftAll(script[1..]);
    }
  }

  lemma {:induction false} RunAppend<T>(script: seq<Edit<T>>, last: Edit<T>, a: seq<T>)
    ensures Run(script + [last], a) == last.Apply(Run(script, a))
  {
    if script == [] {
      assert Run([last], a) == Run([last][1..], last.Apply(a));
    } else {
      assert (script + [last])[1..] == script[1..] + [last];
      RunAppend(script[1..], last, script[0].Apply(a));
    }
  }

  lemma {:induction false} HeadEditCostsOne<T>(a: seq<T>, e: Edit<T>)
    requires e.at == 0 && e.Apply(a) != a
    ensures Distance(a, e.Apply(a)) <= 1
  {
    var b := e.Apply(a);
    if e.Insert? {
      assert b[1..] == a;
      ZeroIffEqual(a, a);
      Symmetric(a, b);
      HeadCost(b, a);
    } else if e.Delete? {
      assert a[1..] == b;
      ZeroIffEqual(b, b);
      HeadCost(a, b);
    } else {
      assert a[1..] == b[1..];
      ZeroIffEqual(a[1..], b[1..]);
    }
  }

  lemma {:induction false} EditCostsOne<T>(a: seq<T>, e: Edit<T>)
    ensures Distance(a, e.Apply(a)) <= 1
    decreases |a|
  {
    var b := e.Apply(a);
    ZeroIffEqual(a, a);
    if b != a {
      if e.at == 0 {
        HeadEditCostsOne(a, e);
      } else {
        var e' := e.(at := e.at - 1);
        ShiftedEdit(e', a[0], a[1..]);
        assert [a[0]] + a[1..] == a && b == [a[0]] + e'.Apply(a[1..]);
        EditCostsOne(a[1..], e');
      }
    }
  }

  /** No edit script is shorter than the distance... */
  lemma {:induction false} NoScriptIsShorter<T>(script: seq<Edit<T>>, a: seq<T>)
    ensures Distance(a, Run(script, a)) <= |script|
  {
    if script == [] {
      ZeroIffEqual(a, a);
    } else {
      var b := script[0].Apply(a);
      EditCostsOne(a, script[0]);
      NoScriptIsShorter(script[1..], b);
      Triangle(a, b, Run(script, a));
    }
  }

  lemma ScriptInserts<T>(script: seq<Edit<T>>, a: seq<T>, b: seq<T>)
    requires b != [] && Run(script, a) == b[1..]
    ensures Run(script + [Insert(0, b[0])], a) == b
  {
    RunAppend(script, Insert(0, b[0]), a);
  }

  lemma ScriptDeletes<T>(script: seq<Edit<T>>, a: seq<T>, b: seq<T>)
    requires a != [] && Run(script, a[1..]) == b
    ensures Run([Edit.Delete(0)] + script, a) == b
  {
    assert Edit.Delete(0).Apply(a) == a[1..];
  }

  lemma ScriptPairs<T>(rest: seq<Edit<T>>, a: seq<T>, b: seq<T>)
    requires a != [] && b != [] && Run(rest, a[1..]) == b[1..]
    ensures |ShiftAll(rest)| == |rest|
    ensures Run(ShiftAll(rest), a) == [a[0]] + b[1..]
    ensures Run(ShiftAll(rest) + [Replace(0, b[0])], a) == b
  {
    ShiftKeepsHead(rest, a[0], a[1..]);
    assert a == [a[0]] + a[1..] && b == [b[0]] + b[1..];
    RunAppend(ShiftAll(rest), Replace(0, b[0]), a);
  }

  /** ... and some script attains it: `Distance` is the least number of single-character edits. */
  lemma {:induction false} ScriptOfThatLength<T>(a: seq<T>, b: seq<T>) returns (script: seq<Edit<T>>)
    ensures |script| == Distance(a, b) && Run(script, a) == b
    decreases |a| + |b|
  {
    if a == [] && b == [] {
      return [];
    }
    hide Run, ShiftAll;
    if b != [] && (a == [] || Distance(a, b) == Distance(a, b[1..]) + 1) {
      script := ScriptOfThatLength(a, b[1..]);
      ScriptInserts(script, a, b);
      script := script + [Insert(0, b[0])];
    } else if b == [] || Distance(a, b) == Distance(a[1..], b) + 1 {
      script := ScriptOfThatLength(a[1..], b);
      ScriptDeletes(script, a, b);
      script := [Delete(0)] + script;
    } else {
      var rest := ScriptOfThatLength(a[1..], b[1..]);
      ScriptPairs(rest, a, b);
      script := ShiftAll(rest) + if a[0] == b[0] then [] else [Replace(0, b[0])];
      assert a[0] == b[0] ==> script == ShiftAll(rest) && b == [a[0]] + b[1..];
    }
  }
}
