/** The request plan and the merge of the answers: `Helper.full_requests_params`
    and `Helper.from_raw` (custom/custom_functions.py). */
module Requests {
  import opened Text
  import opened Errors
  import opened Dates
  import opened Records

  /** `MOEX_REQUESTS['DETAIL_INFO']` (values/constans.py). */
  const DetailInfo: string := "https://iss.moex.com/iss/engines/stock/markets/{0}/securities/{1}/candles.json?from={2}&till={3}"

  /** One request: its task name, its URL template and the four values the
      template is filled with. The two dictionaries `full_requests_params`
      returns have the same keys in the same order; a task is one key with its
      entry in both. */
  datatype Task = Task(name: string, url: string, params: seq<string>)

  /** `f'{tech_name}_{num}'`. */
  function TaskName(techName: string, num: nat): string
  {
    techName + "_" + NatToString(num)
  }

  /** The task of the `num`-th trading day (counting from 1): the candles of
      that single day. */
  function DayTask(techName: string, techType: string, num: nat, day: Day): Task
    requires InRange(day)
  {
    Task(TaskName(techName, num), DetailInfo, [techType, techName, FromDate(day), FromDate(day)])
  }

  /** `Helper.full_requests_params`. */
  method FullRequestsParams(tradingDays: seq<Day>, techName: string, techType: string) returns (tasks: seq<Task>)
    requires forall i :: 0 <= i < |tradingDays| ==> InRange(tradingDays[i])
    ensures |tasks| == |tradingDays|
    ensures forall i :: 0 <= i < |tasks| ==> tasks[i] == DayTask(techName, techType, i + 1, tradingDays[i])
  {
    tasks := [];
    var num := 1;
    while num <= |tradingDays|
      invariant 1 <= num <= |tradingDays| + 1
      invariant |tasks| == num - 1
      invariant forall i :: 0 <= i < |tasks| ==> tasks[i] == DayTask(techName, techType, i + 1, tradingDays[i])
    {
      var tradingDay := tradingDays[num - 1];
      var filledTaskName := techName + "_" + NatToString(num);
      tasks := tasks + [Task(filledTaskName, DetailInfo, [techType, techName, FromDate(tradingDay), FromDate(tradingDay)])];
      num := num + 1;
    }
  }

  /** Task names never collide, so no day's request overwrites another's. */
  lemma TaskNamesDistinct(techName: string, a: nat, b: nat)
    requires TaskName(techName, a) == TaskName(techName, b)
    ensures a == b
  {
    var p := techName + "_";
    assert TaskName(techName, a)[|p|..] == NatToString(a);
    assert TaskName(techName, b)[|p|..] == NatToString(b);
    NatToStringInjective(a, b);
  }

  /** Each request asks for exactly its own day: both bounds read back as it. */
  lemma DayTaskAsksForItsDay(techName: string, techType: string, num: nat, day: Day)
    requires InRange(day)
    ensures |DayTask(techName, techType, num, day).params| == 4
    ensures ToDate(DayTask(techName, techType, num, day).params[2]) == Some(day)
    ensures ToDate(DayTask(techName, techType, num, day).params[3]) == Some(day)
  {
    ParsePrint(day);
  }

  /** `Helper.from_raw`: the candles of each task's answer, concatenated in task
      order; the KeyError of the first task without an answer. `raw` maps a task
      name to the `['candles']['data']` part of its answer. */
  function FromRaw(raw: map<string, seq<Candle>>, tasks: seq<Task>): (r: Result<seq<Candle>>)
    ensures r.Ok? <==> forall i :: 0 <= i < |tasks| ==> tasks[i].name in raw
    ensures r.Err? ==> exists i :: 0 <= i < |tasks| && r.error == KeyNotFound(tasks[i].name) && tasks[i].name !in raw
                                   && forall j :: 0 <= j < i ==> tasks[j].name in raw
  {
    if tasks == [] then Ok([])
    else
      var n := |tasks| - 1;
      assert forall i :: 0 <= i < n ==> tasks[..n][i] == tasks[i];
      match FromRaw(raw, tasks[..n])
      case Err(e) => Err(e)
      case Ok(acc) =>
        if tasks[n].name in raw then Ok(acc + raw[tasks[n].name]) else Err(KeyNotFound(tasks[n].name))
  }

  /** Merging no tasks gives no candles, and merging one task gives its
      answer's rows unchanged, in their order. */
  lemma FromRawSingle(raw: map<string, seq<Candle>>, t: Task)
    requires t.name in raw
    ensures FromRaw(raw, []) == Ok([])
    ensures FromRaw(raw, [t]) == Ok(raw[t.name])
  {
    assert [t][..0] == [];
    assert FromRaw(raw, [t][..0]) == Ok([]);
    assert [] + raw[t.name] == raw[t.name];
  }

  /** Merging two task lists one after the other is merging each and
      concatenating. */
  lemma {:induction false} FromRawAppend(raw: map<string, seq<Candle>>, a: seq<Task>, b: seq<Task>)
    requires FromRaw(raw, a + b).Ok?
    ensures FromRaw(raw, a).Ok? && FromRaw(raw, b).Ok?
    ensures FromRaw(raw, a + b).value == FromRaw(raw, a).value + FromRaw(raw, b).value
    decreases |b|
  {
    if b == [] {
      assert a + b == a;
    } else {
      var n := |b| - 1;
      var ab := a + b;
      assert ab[..|ab| - 1] == a + b[..n];
      assert ab[|ab| - 1] == b[n];
      assert b[..n] + [b[n]] == b;
      FromRawAppend(raw, a, b[..n]);
    }
  }

  /** A candle is in the merge exactly when it is in some task's answer. */
  lemma {:induction false} FromRawMembers(raw: map<string, seq<Candle>>, tasks: seq<Task>, c: Candle)
    requires FromRaw(raw, tasks).Ok?
    ensures c in FromRaw(raw, tasks).value <==> exists i :: 0 <= i < |tasks| && c in raw[tasks[i].name]
  {
    if tasks != [] {
      var n := |tasks| - 1;
      assert forall i :: 0 <= i < n ==> tasks[..n][i] == tasks[i];
      FromRawMembers(raw, tasks[..n], c);
    }
  }
}
