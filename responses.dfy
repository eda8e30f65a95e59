/**
 The in-memory response log (`st.session_state.response_data`, app.py lines 46-47
 and 159-176): one row per recorded answer, with the chart variant shown (`ID`) and
 the elapsed time (`Time`, here in microseconds). Rows loaded from the spreadsheet
 may carry any ID or none; `None` stands for an empty (NaN) cell.
 */
module Responses {
  import opened Wrappers

  datatype Response = Response(id: Option<int>, time: int)

  /**
   The times of the rows whose ID equals `id`, in log order
   (`response_data[response_data['ID'] == id]['Time']`, lines 218-219).
   A row with no ID matches no variant.
   */
  function TimesFor(log: seq<Response>, id: int): (times: seq<int>)
    ensures |times| <= |log|
  {
    if log == [] then []
    else
      var rest := TimesFor(log[1..], id);
      if log[0].id == Some(id) then [log[0].time] + rest else rest
  }

  /** The `count` column of the per-ID statistics (line 244). */
  function CountFor(log: seq<Response>, id: int): nat {
    |TimesFor(log, id)|
  }

  /** Filtering distributes over concatenation of logs. */
  lemma {:induction false} TimesForAppend(a: seq<Response>, b: seq<Response>, id: int)
    ensures TimesFor(a + b, id) == TimesFor(a, id) + TimesFor(b, id)
  {
    if a == [] {
      assert a + b == b;
    } else {
      assert (a + b)[1..] == a[1..] + b;
      TimesForAppend(a[1..], b, id);
    }
  }

  /** Appending one row adds its time to exactly the filter of its own ID. */
  lemma TimesForAppendRow(log: seq<Response>, row: Response, id: int)
    ensures TimesFor(log + [row], id)
            == TimesFor(log, id) + (if row.id == Some(id) then [row.time] else [])
  {
    TimesForAppend(log, [row], id);
    assert [row][1..] == [];
  }

  /** Every filtered time is the time of some row carrying that ID, and vice versa. */
  lemma {:induction false} TimesForMembers(log: seq<Response>, id: int, t: int)
    ensures t in TimesFor(log, id) <==> Response(Some(id), t) in log
  {
    if log != [] {
      TimesForMembers(log[1..], id, t);
      assert log == [log[0]] + log[1..];
    }
  }

  /** Every row's ID is one of the two chart variants. */
  ghost predicate VariantRowsOnly(log: seq<Response>) {
    forall i :: 0 <= i < |log| ==> log[i].id == Some(0) || log[i].id == Some(1)
  }

  /**
   The two variant groups never hold more rows than the log, and partition it
   when every row names a variant.
   */
  lemma {:induction false} CountPartition(log: seq<Response>)
    ensures CountFor(log, 0) + CountFor(log, 1) <= |log|
    ensures VariantRowsOnly(log) ==> CountFor(log, 0) + CountFor(log, 1) == |log|
  {
    if log != [] {
      CountPartition(log[1..]);
      if VariantRowsOnly(log) {
        assert VariantRowsOnly(log[1..]) by {
          forall i | 0 <= i < |log[1..]| ensures log[1..][i].id == Some(0) || log[1..][i].id == Some(1) {
            assert log[1..][i] == log[i + 1];
          }
        }
        assert log[0].id == Some(0) || log[0].id == Some(1) by { assert 0 < |log|; }
      }
    }
  }
}
