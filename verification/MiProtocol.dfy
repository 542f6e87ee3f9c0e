/**
 The breakpoint commands of the MI protocol: an object with the two tables, of line and of
 function breakpoints, over one engine.
 */
module MiProtocols {
  import opened Tables
  import opened Engine
  import opened MiBreakpoints
  import MiFunctions

  /** The first answer for the line. */
  method FindAnswer(out: seq<Breakpoint>, line: int) returns (b: Breakpoint)
    requires exists i :: 0 <= i < |out| && out[i].line == line
    ensures b == out[FirstAt(out, line)]
  {
    var i := 0;
    while out[i].line != line
      invariant 0 <= i < |out| && forall j | 0 <= j < i :: out[j].line != line
      decreases |out| - i
    {
      i := i + 1;
    }
    b := out[i];
  }

  /** The position of the first answer for a function of the name. */
  method FindNamed(out: seq<Record<FuncDetail>>, func: string) returns (i: nat)
    ensures i == MiFunctions.FirstNamed(out, func)
  {
    i := 0;
    assert out[0..] == out;
    while i < |out| && out[i].detail.name != func
      invariant i <= |out| && MiFunctions.FirstNamed(out, func) == i + MiFunctions.FirstNamed(out[i..], func)
    {
      assert out[i..][1..] == out[i + 1..];
      i := i + 1;
    }
  }

  class MIProtocol {
    var breakpoints: map<string, MiBreakpoints.Entries>
    var funcBreakpoints: MiFunctions.Entries
    const debugger: Breakpoints

    /** The line table over the engine. */
    function Current(): Mi
      reads this, debugger, debugger.exceptionBreakpoints
    {
      Mi(breakpoints, debugger.Current())
    }

    /** The function table over the engine. */
    function Funcs(): MiFunctions.Mi
      reads this, debugger, debugger.exceptionBreakpoints
    {
      MiFunctions.Mi(funcBreakpoints, debugger.Current())
    }

    constructor ()
      ensures Current() == MI_START && Funcs() == MiFunctions.MI_START
      ensures fresh(debugger) && fresh(debugger.exceptionBreakpoints)
    {
      breakpoints, funcBreakpoints := map[], map[];
      debugger := new Breakpoints();
    }

    ghost predicate Valid()
      reads this, debugger, debugger.exceptionBreakpoints
    {
      Engine.Valid(debugger.Current())
    }

    /** The failing return of the source is not reached: some answer is for the line. */
    method SetBreakpoint(file: string, line: int, condition: string, resolve: Resolver) returns (b: Breakpoint)
      requires Valid()
      modifies this`breakpoints, debugger
      ensures Valid()
      ensures InsertStep(old(Current()), file, line, condition, resolve, Current())
      ensures b.line == line && file in breakpoints && b.id in breakpoints[file]
    {
      ghost var before := Current();
      var entries := if file in breakpoints then breakpoints[file] else map[];
      var reqs, order := Gather(entries, {});
      assert entries.Keys - {} == entries.Keys;
      InsertAnswered(before.engine, file, entries, order, line, condition, resolve);
      reqs := reqs + [Request(line, condition)];
      var out := debugger.SetBreakpoints(file, reqs, resolve);
      assert out[|order|].line == line;
      b := FindAnswer(out, line);
      if b.id !in entries {
        entries := entries[b.id := Request(b.line, b.condition)];
      }
      breakpoints := breakpoints[file := entries];
      assert Inserted(before, file, line, condition, resolve, order, Current());
    }

    method SetBreakpointCondition(id: nat, condition: string, resolve: Resolver) returns (ok: bool)
      requires Valid()
      modifies this`breakpoints, debugger
      ensures Valid()
      ensures ConditionStep(old(Current()), id, condition, resolve, Current())
      ensures ok == exists f :: f in old(breakpoints) && id in old(breakpoints)[f]
    {
      ghost var before := Current();
      var files := breakpoints.Keys;
      while files != {}
        invariant files <= breakpoints.Keys && Current() == before
        invariant forall f | f in breakpoints && f !in files :: id !in breakpoints[f]
        decreases files
      {
        var file :| file in files;
        if id in breakpoints[file] {
          var entries := Changed(breakpoints[file], id, condition);
          breakpoints := breakpoints[file := entries];
          var reqs, order := Gather(entries, {});
          assert entries.Keys - {} == entries.Keys == before.lines[file].Keys;
          SetLinesKeeps(before.engine, file, reqs, resolve);
          var _ := debugger.SetBreakpoints(file, reqs, resolve);
          assert ConditionChanged(before, file, id, condition, resolve, order, Current());
          return true;
        }
        files := files - {file};
      }
      ok := false;
    }

    /** One file of a delete. */
    method DeleteInFile(file: string, ids: set<nat>, resolve: Resolver)
      requires Valid() && file in breakpoints
      modifies debugger
      ensures Valid()
      ensures FileDeletesTo(breakpoints[file], old(debugger.Current()), file, ids, resolve, debugger.Current())
    {
      ghost var before := debugger.Current();
      var remaining, order := Gather(breakpoints[file], ids);
      RemainingCount(breakpoints[file], ids, order);
      if |remaining| != |breakpoints[file]| {
        SetLinesKeeps(before, file, remaining, resolve);
        var _ := debugger.SetBreakpoints(file, remaining, resolve);
        assert debugger.Current() == Apply(before, SetLines(file, Gathered(breakpoints[file], order), resolve));
      }
    }

    method DeleteBreakpoints(ids: set<nat>, resolve: Resolver)
      requires Valid()
      modifies debugger
      ensures Valid()
      ensures DeleteStep(old(Current()), ids, resolve, Current())
    {
      ghost var before, files := Current(), [];
      var todo := breakpoints.Keys;
      while todo != {}
        invariant todo <= breakpoints.Keys && Lists(files, breakpoints.Keys - todo)
        invariant Valid() && DeletesTo(breakpoints, before.engine, files, ids, resolve, debugger.Current())
        decreases todo
      {
        var file :| file in todo;
        ghost var mid := debugger.Current();
        DeleteInFile(file, ids, resolve);
        DeletesNext(breakpoints, before.engine, files, file, ids, resolve, mid, debugger.Current());
        ListsNext(files, breakpoints.Keys - todo, file);
        assert breakpoints.Keys - (todo - {file}) == breakpoints.Keys - todo + {file};
        files := files + [file];
        todo := todo - {file};
      }
      assert Lists(files, breakpoints.Keys);
    }

    /** What the engine answers for a function of the name; none when no answer has it. */
    method SetFunctionBreakpoint(q: FuncRequest, resolve: FuncResolver) returns (ok: bool, b: Record<FuncDetail>)
      requires Valid()
      modifies this`funcBreakpoints, debugger
      ensures Valid()
      ensures MiFunctions.InsertStep(old(Funcs()), q, resolve, Funcs())
      ensures ok ==> b.detail.name == q.func && b.id in funcBreakpoints
    {
      ghost var before := Funcs();
      var reqs, order := Gather(funcBreakpoints, {});
      assert funcBreakpoints.Keys - {} == funcBreakpoints.Keys;
      reqs := reqs + [q];
      SetFuncsKeeps(before.engine, reqs, resolve);
      MiFunctions.AnsweredBy(before.engine, reqs, resolve);
      var out := debugger.SetFunctionBreakpoints(reqs, resolve);
      var i := FindNamed(out, q.func);
      b := out[if i < |out| then i else 0];
      ok := i < |out|;
      if ok && b.id !in funcBreakpoints {
        funcBreakpoints := funcBreakpoints[b.id := MiFunctions.Answer(b)];
      }
      assert MiFunctions.Inserted(before, q, resolve, order, Funcs());
    }

    method SetFunctionBreakpointCondition(id: nat, condition: string, resolve: FuncResolver) returns (ok: bool)
      requires Valid()
      modifies this`funcBreakpoints, debugger
      ensures Valid()
      ensures MiFunctions.ConditionStep(old(Funcs()), id, condition, resolve, Funcs())
      ensures ok == (id in old(funcBreakpoints))
    {
      ghost var before := Funcs();
      ok := id in funcBreakpoints;
      if ok {
        funcBreakpoints := MiFunctions.Changed(funcBreakpoints, id, condition);
        var reqs, order := Gather(funcBreakpoints, {});
        assert funcBreakpoints.Keys - {} == funcBreakpoints.Keys;
        SetFuncsKeeps(before.engine, reqs, resolve);
        var _ := debugger.SetFunctionBreakpoints(reqs, resolve);
        assert Funcs()
          == MiFunctions.Mi(funcBreakpoints, Apply(before.engine, SetFuncs(Gathered(funcBreakpoints, order), resolve)));
      }
    }

    method DeleteFunctionBreakpoints(ids: set<nat>, resolve: FuncResolver)
      requires Valid()
      modifies debugger
      ensures Valid()
      ensures MiFunctions.DeleteStep(old(Funcs()), ids, resolve, Funcs())
    {
      ghost var before := Funcs();
      var remaining, order := Gather(funcBreakpoints, ids);
      RemainingCount(funcBreakpoints, ids, order);
      if |remaining| != |funcBreakpoints| {
        SetFuncsKeeps(before.engine, remaining, resolve);
        var _ := debugger.SetFunctionBreakpoints(remaining, resolve);
        assert Funcs() == before.(engine := Apply(before.engine, SetFuncs(Gathered(funcBreakpoints, order), resolve)));
      }
    }

    /** The condition command: the line table is tried first. */
    method BreakCondition(id: nat, condition: string, resolve: Resolver, resolveFunc: FuncResolver) returns (ok: bool)
      requires Valid()
      modifies this, debugger
      ensures Valid()
      ensures ok == (id in old(funcBreakpoints) || exists f :: f in old(breakpoints) && id in old(breakpoints)[f])
      ensures var isLine := exists f :: f in old(breakpoints) && id in old(breakpoints)[f];
        && (isLine ==> ConditionStep(old(Current()), id, condition, resolve, Current()))
        && (isLine ==> funcBreakpoints == old(funcBreakpoints))
        && (!isLine ==> MiFunctions.ConditionStep(old(Funcs()), id, condition, resolveFunc, Funcs()))
        && (!isLine ==> breakpoints == old(breakpoints))
    {
      ok := SetBreakpointCondition(id, condition, resolve);
      if !ok {
        ok := SetFunctionBreakpointCondition(id, condition, resolveFunc);
      }
    }

    /** The delete command: lines, then functions. */
    method BreakDelete(ids: set<nat>, resolve: Resolver, resolveFunc: FuncResolver)
      requires Valid()
      modifies debugger
      ensures Valid()
      ensures exists mid :: DeleteStep(old(Current()), ids, resolve, Mi(breakpoints, mid))
                            && MiFunctions.DeleteStep(MiFunctions.Mi(funcBreakpoints, mid), ids, resolveFunc, Funcs())
    {
      DeleteBreakpoints(ids, resolve);
      ghost var mid := debugger.Current();
      DeleteFunctionBreakpoints(ids, resolveFunc);
    }
  }
}
