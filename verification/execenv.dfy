/**
 * The execution-environment registry (`plv8_new_exec_env`,
 * `plv8_xact_cb`): environments created during a transaction are pushed
 * on a list, and at transaction end every receiver object they hold is
 * released and the list is emptied.
 */
module ExecEnvs {
  import opened Base

  /** The receiver object and the function bound to it. */
  datatype Receiver = Receiver(obj: Handle, bound: Handle)

  datatype ExecEnv = ExecEnv(recv: Option<Receiver>, context: Option<Handle>)

  /** Newest first. */
  type Registry = seq<ExecEnv>

  /** Push an empty environment on the front; the new one is at index 0. */
  function NewExecEnv(reg: Registry): (r: Registry)
    ensures |r| == |reg| + 1
    ensures r[0] == ExecEnv(None, None)
    ensures r[1..] == reg
  {
    [ExecEnv(None, None)] + reg
  }

  /** No receiver object is held by two environments. */
  predicate DistinctRecvs(reg: Registry) {
    forall i, j :: 0 <= i < j < |reg| && reg[i].recv.Some? && reg[j].recv.Some? ==>
      reg[i].recv.value.obj != reg[j].recv.value.obj
  }

  /** The receiver objects held by the environments, in list order. */
  function RecvObjects(reg: Registry): (r: seq<Handle>)
    ensures |r| <= |reg|
  {
    if |reg| == 0 then []
    else (if reg[0].recv.Some? then [reg[0].recv.value.obj] else []) + RecvObjects(reg[1..])
  }

  lemma {:induction false} RecvObjectsMembers(reg: Registry)
    ensures forall h :: h in RecvObjects(reg) <==> exists i :: 0 <= i < |reg| && reg[i].recv.Some? && reg[i].recv.value.obj == h
  {
    if |reg| > 0 {
      RecvObjectsMembers(reg[1..]);
      forall h | (exists i :: 0 <= i < |reg| && reg[i].recv.Some? && reg[i].recv.value.obj == h)
        ensures h in RecvObjects(reg)
      {
        var i :| 0 <= i < |reg| && reg[i].recv.Some? && reg[i].recv.value.obj == h;
        if i > 0 {
          assert reg[1..][i - 1] == reg[i];
        }
      }
    }
  }

  lemma {:induction false} RecvObjectsAppend(a: Registry, b: Registry)
    ensures RecvObjects(a + b) == RecvObjects(a) + RecvObjects(b)
  {
    if |a| == 0 {
      assert a + b == b;
    } else {
      assert (a + b)[1..] == a[1..] + b;
      assert (a + b)[0] == a[0];
      RecvObjectsAppend(a[1..], b);
      var head := if a[0].recv.Some? then [a[0].recv.value.obj] else [];
      assert RecvObjects(a + b) == head + (RecvObjects(a[1..]) + RecvObjects(b));
      assert RecvObjects(a) == head + RecvObjects(a[1..]);
      assert head + (RecvObjects(a[1..]) + RecvObjects(b)) == (head + RecvObjects(a[1..])) + RecvObjects(b);
    }
  }

  lemma {:induction false} RecvObjectsNoDup(reg: Registry)
    requires DistinctRecvs(reg)
    ensures NoDup(RecvObjects(reg))
  {
    if |reg| > 0 {
      var tail := reg[1..];
      assert DistinctRecvs(tail) by {
        forall i, j | 0 <= i < j < |tail| && tail[i].recv.Some? && tail[j].recv.Some?
          ensures tail[i].recv.value.obj != tail[j].recv.value.obj
        {
          assert tail[i] == reg[i + 1] && tail[j] == reg[j + 1];
        }
      }
      RecvObjectsNoDup(tail);
      RecvObjectsMembers(tail);
      if reg[0].recv.Some? {
        var h := reg[0].recv.value.obj;
        assert h !in RecvObjects(tail);
        var r := RecvObjects(reg);
        assert r == [h] + RecvObjects(tail);
        forall i, j | 0 <= i < j < |r| ensures r[i] != r[j] {
          if i == 0 {
            assert r[j] == RecvObjects(tail)[j - 1];
          } else {
            assert r[i] == RecvObjects(tail)[i - 1] && r[j] == RecvObjects(tail)[j - 1];
          }
        }
      }
    }
  }

  /**
   * The transaction callback: walks the list, releasing each environment's
   * receiver, and returns the released handles and the emptied registry.
   */
  method XactCallback(reg: Registry) returns (released: seq<Handle>, after: Registry)
    ensures released == RecvObjects(reg)
    ensures forall h :: h in released <==>
      exists i :: 0 <= i < |reg| && reg[i].recv.Some? && reg[i].recv.value.obj == h
    ensures DistinctRecvs(reg) ==> NoDup(released)
    ensures after == []
  {
    released := [];
    var i := 0;
    while i < |reg|
      invariant 0 <= i <= |reg|
      invariant released == RecvObjects(reg[..i])
    {
      RecvObjectsAppend(reg[..i], [reg[i]]);
      assert reg[..i + 1] == reg[..i] + [reg[i]];
      if reg[i].recv.Some? {
        released := released + [reg[i].recv.value.obj];
      }
      i := i + 1;
    }
    assert reg[..i] == reg;
    RecvObjectsMembers(reg);
    if DistinctRecvs(reg) {
      RecvObjectsNoDup(reg);
    }
    after := [];
  }
}
