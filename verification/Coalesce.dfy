/** Merging all SQL statements of a bulk migration into one, at the place of the first. */
module Coalescing {
  import opened Ordering

  datatype Command = RunSql(sql: string) | Other(kind: string, args: string)

  /** The script mends a statement without its final semicolon and newline by overwriting its last character. */
  function Normalise(sql: string): string {
    if |sql| >= 2 && sql[|sql| - 2..] == ";\n" then sql
    else (if sql == "" then "" else sql[..|sql| - 1]) + ";\n"
  }

  /** What one command adds to the SQL. */
  function Part(c: Command): string {
    if c.RunSql? then Normalise(c.sql) else ""
  }

  function Joined(args: seq<Command>): string {
    if args == [] then "" else Part(args[0]) + Joined(args[1..])
  }

  function Others(args: seq<Command>): seq<Command> {
    if args == [] then []
    else if args[0].RunSql? then Others(args[1..])
    else [args[0]] + Others(args[1..])
  }

  /** The number of commands before the first SQL statement. */
  function Lead(args: seq<Command>): (n: nat)
    ensures n <= |args|
    ensures forall i :: 0 <= i < n ==> args[i].Other?
    ensures n < |args| ==> args[n].RunSql?
  {
    if args == [] || args[0].RunSql? then 0 else 1 + Lead(args[1..])
  }

  function Coalesced(args: seq<Command>): seq<Command> {
    if |Joined(args)| < 5 then args
    else args[..Lead(args)] + [RunSql(Joined(args))] + Others(args[Lead(args)..])
  }

  lemma {:induction false} OthersConcat(a: seq<Command>, b: seq<Command>)
    ensures Others(a + b) == Others(a) + Others(b)
  {
    if a == [] {
      assert a + b == b;
    } else {
      OthersConcat(a[1..], b);
      assert (a + b)[1..] == a[1..] + b;
    }
  }

  lemma {:induction false} JoinedConcat(a: seq<Command>, b: seq<Command>)
    ensures Joined(a + b) == Joined(a) + Joined(b)
  {
    if a == [] {
      assert a + b == b;
    } else {
      JoinedConcat(a[1..], b);
      assert (a + b)[1..] == a[1..] + b;
      Associate(Part(a[0]), Joined(a[1..]), Joined(b));
    }
  }

  lemma {:induction false} OnlyOthers(a: seq<Command>)
    requires forall c :: c in a ==> c.Other?
    ensures Others(a) == a && Joined(a) == ""
  {
    if a == [] {
    } else {
      assert a[0] in a;
      OnlyOthers(a[1..]);
      assert a == [a[0]] + a[1..];
    }
  }

  lemma {:induction false} OthersAreOther(a: seq<Command>)
    ensures forall c :: c in Others(a) ==> c.Other?
  {
    if a == [] {
    } else {
      OthersAreOther(a[1..]);
    }
  }

  lemma JoinedStep(args: seq<Command>, ix: nat)
    requires ix < |args|
    ensures Joined(args[..ix + 1]) == Joined(args[..ix]) + Part(args[ix])
  {
    assert args[..ix + 1] == args[..ix] + [args[ix]];
    JoinedConcat(args[..ix], [args[ix]]);
    assert Joined([args[ix]]) == Part(args[ix]) + Joined([]);
  }

  /** The indices of the SQL statements, ascending. */
  predicate AreIndices(args: seq<Command>, ixs: seq<nat>) {
    && (forall k :: 0 <= k < |ixs| ==> ixs[k] < |args| && args[ixs[k]].RunSql?)
    && (forall j, k :: 0 <= j < k < |ixs| ==> ixs[j] < ixs[k])
    && (forall i :: 0 <= i < |args| && args[i].RunSql? ==> i in ixs)
  }

  lemma IndicesStep(args: seq<Command>, ixs: seq<nat>, ix: nat)
    requires ix < |args| && AreIndices(args[..ix], ixs)
    ensures AreIndices(args[..ix + 1], if args[ix].RunSql? then ixs + [ix] else ixs)
  {
    var more := if args[ix].RunSql? then ixs + [ix] else ixs;
    forall i | 0 <= i <= ix && args[..ix + 1][i].RunSql?
      ensures i in more
    {
      if i < ix {
        assert args[..ix][i].RunSql?;
        assert i in ixs;
      } else {
        assert more[|ixs|] == ix;
      }
    }
    forall k | 0 <= k < |more|
      ensures more[k] < ix + 1 && args[..ix + 1][more[k]].RunSql?
    {
      if k < |ixs| {
        assert args[..ix][ixs[k]].RunSql?;
      }
    }
  }

  /** What has been gathered from the commands before position ix. */
  ghost predicate Gathered(args: seq<Command>, ix: nat, sql: string, minIx: Option<nat>, ixs: seq<nat>)
    requires ix <= |args|
  {
    && sql == Joined(args[..ix]) && AreIndices(args[..ix], ixs)
    && minIx == if ixs == [] then None else Some(ixs[0])
  }

  lemma GatheredStep(args: seq<Command>, ix: nat, sql: string, minIx: Option<nat>, ixs: seq<nat>)
    requires ix < |args| && Gathered(args, ix, sql, minIx, ixs)
    ensures if args[ix].RunSql? then
              Gathered(args, ix + 1, sql + Normalise(args[ix].sql), if minIx.None? then Some(ix) else minIx, ixs + [ix])
            else Gathered(args, ix + 1, sql, minIx, ixs)
  {
    JoinedStep(args, ix);
    IndicesStep(args, ixs, ix);
  }

  /** Deleting the last remaining statement leaves what follows it as it is. */
  lemma DeleteStep(args: seq<Command>, ix: nat, end: nat)
    requires ix < end <= |args| && args[ix].RunSql?
    requires forall i :: ix < i < end ==> args[i].Other?
    ensures args[ix + 1..end] + Others(args[end..]) == Others(args[ix..])
  {
    var between := args[ix + 1..end];
    OnlyOthers(between);
    assert args[ix..][1..] == between + args[end..];
    OthersConcat(between, args[end..]);
  }

  /** Python's del: everything behind the index moves up by one. */
  function Delete(args: seq<Command>, ix: nat): seq<Command>
    requires ix < |args|
  {
    args[..ix] + args[ix + 1..]
  }

  class Migration {
    var kind: string
    var args: seq<Command>

    constructor (kind: string, args: seq<Command>)
      ensures this.kind == kind && this.args == args
    {
      this.kind, this.args := kind, args;
    }

    method Collect() returns (sql: string, minIx: Option<nat>, ixsToDelete: seq<nat>)
      ensures sql == Joined(args) && AreIndices(args, ixsToDelete)
      ensures minIx == if ixsToDelete == [] then None else Some(ixsToDelete[0])
    {
      sql, minIx, ixsToDelete := "", None, [];
      for ix := 0 to |args|
        invariant Gathered(args, ix, sql, minIx, ixsToDelete)
      {
        GatheredStep(args, ix, sql, minIx, ixsToDelete);
        if args[ix].RunSql? {
          if minIx.None? {
            minIx := Some(ix);
          }
          var current := args[ix].sql;
          sql := sql + Normalise(current);
          ixsToDelete := ixsToDelete + [ix];
        }
      }
      assert args[..|args|] == args;
    }

    /** Deleting by index, the highest first, amounts to keeping what is not an SQL statement. */
    method DeleteAll(ixs: seq<nat>) returns (rest: seq<Command>)
      requires AreIndices(args, ixs)
      ensures rest == Others(args)
    {
      rest := args;
      var k := |ixs|;
      ghost var end := |args|;
      while k > 0
        invariant 0 <= k <= |ixs| && end <= |args| && end == (if k < |ixs| then ixs[k] else |args|)
        invariant rest == args[..end] + Others(args[end..])
        decreases k
      {
        k := k - 1;
        var ix := ixs[k];
        assert forall i :: ix < i < end ==> args[i].Other?;
        rest := DeleteOne(rest, ix, end);
        end := ix;
      }
      WithoutStatements(args, end);
    }

    method DeleteOne(rest: seq<Command>, ix: nat, ghost end: nat) returns (shorter: seq<Command>)
      requires ix < end <= |args| && args[ix].RunSql?
      requires forall i :: ix < i < end ==> args[i].Other?
      requires rest == args[..end] + Others(args[end..])
      ensures shorter == args[..ix] + Others(args[ix..])
    {
      DeleteStep(args, ix, end);
      assert rest[..ix] == args[..ix];
      assert rest[ix + 1..] == args[ix + 1..end] + Others(args[end..]);
      shorter := Delete(rest, ix);
    }

    /** The script: the file is written only for a bulk migration with enough SQL in it. */
    method Coalesce() returns (written: bool)
      modifies this
      ensures kind == old(kind)
      ensures written == (kind == "bulk" && |Joined(old(args))| >= 5)
      ensures args == if kind == "bulk" then Coalesced(old(args)) else old(args)
      ensures !written ==> args == old(args)
    {
      if kind != "bulk" {
        return false;
      }
      var sql, minIx, ixs := Collect();
      var rest := DeleteAll(ixs);
      if |sql| < 5 {
        return false;
      }
      FirstIndex(args, ixs);
      args := rest[..minIx.value] + [RunSql(sql)] + rest[minIx.value..];
      written := true;
    }
  }

  lemma WithoutStatements(args: seq<Command>, n: nat)
    requires n <= |args| && forall i :: 0 <= i < n ==> args[i].Other?
    ensures Others(args) == args[..n] + Others(args[n..]) && Joined(args) == Joined(args[n..])
  {
    assert args == args[..n] + args[n..];
    OnlyOthers(args[..n]);
    OthersConcat(args[..n], args[n..]);
    JoinedConcat(args[..n], args[n..]);
  }

  lemma FirstIndex(args: seq<Command>, ixs: seq<nat>)
    requires AreIndices(args, ixs) && Joined(args) != ""
    ensures ixs != [] && ixs[0] == Lead(args)
    ensures Others(args) == args[..Lead(args)] + Others(args[Lead(args)..])
  {
    var n := Lead(args);
    WithoutStatements(args, n);
    assert n < |args|;
    assert n in ixs;
  }

  lemma {:induction false} LeadIs(lead: seq<Command>, sql: Command, rest: seq<Command>)
    requires sql.RunSql? && forall c :: c in lead ==> c.Other?
    ensures Lead(lead + [sql] + rest) == |lead|
  {
    if lead == [] {
    } else {
      assert lead[0] in lead;
      LeadIs(lead[1..], sql, rest);
      assert (lead + [sql] + rest)[1..] == lead[1..] + [sql] + rest;
    }
  }

  /** The one statement stands where the first was; everything in front of it has not moved. */
  lemma CoalescedPlace(args: seq<Command>)
    requires |Joined(args)| >= 5
    ensures Lead(Coalesced(args)) == Lead(args) < |Coalesced(args)|
    ensures Coalesced(args)[..Lead(args)] == args[..Lead(args)]
    ensures Coalesced(args)[Lead(args)] == RunSql(Joined(args))
    ensures Coalesced(args)[Lead(args) + 1..] == Others(args[Lead(args)..])
  {
    var n := Lead(args);
    LeadIs(args[..n], RunSql(Joined(args)), Others(args[n..]));
  }

  /** Coalescing keeps all other commands in their order. */
  lemma CoalescedOthers(args: seq<Command>)
    ensures Others(Coalesced(args)) == Others(args)
  {
    if |Joined(args)| >= 5 {
      var n := Lead(args);
      CoalescedPlace(args);
      WithoutStatements(args, n);
      WithoutStatements(Coalesced(args), n);
      OthersAreOther(args[n..]);
      OnlyOthers(Others(args[n..]));
      assert Coalesced(args)[n..][1..] == Others(args[n..]);
    }
  }

  lemma CoalescedSql(args: seq<Command>)
    requires |Joined(args)| >= 5
    ensures Joined(Coalesced(args)) == Normalise(Joined(args))
  {
    var n := Lead(args);
    CoalescedPlace(args);
    WithoutStatements(Coalesced(args), n);
    OthersAreOther(args[n..]);
    OnlyOthers(Others(args[n..]));
    assert Coalesced(args)[n..][1..] == Others(args[n..]);
  }

  lemma {:induction false} JoinedEnds(args: seq<Command>)
    ensures Joined(args) == "" || (|Joined(args)| >= 2 && Joined(args)[|Joined(args)| - 2..] == ";\n")
  {
    if args == [] {
    } else {
      JoinedEnds(args[1..]);
      if args[0].RunSql? && Joined(args[1..]) == "" {
        var fragment := Normalise(args[0].sql);
        assert fragment[|fragment| - 2..] == ";\n";
      }
    }
  }

  /** A coalesced migration runs the same SQL as before, and is left alone by a second run of the script. */
  lemma CoalescingIsIdempotent(args: seq<Command>)
    ensures Joined(Coalesced(args)) == Joined(args)
    ensures Coalesced(Coalesced(args)) == Coalesced(args)
  {
    if |Joined(args)| >= 5 {
      CoalescedSql(args);
      JoinedEnds(args);
      CoalescedPlace(args);
      var again, n := Coalesced(args), Lead(args);
      OthersAreOther(args[n..]);
      OnlyOthers(again[n + 1..]);
      assert Others(again[n..]) == Others(again[n + 1..]) by {
        assert again[n..][1..] == again[n + 1..];
      }
      assert again == again[..n] + [again[n]] + again[n + 1..];
    }
  }

  /** Mending: a statement that ends with a semicolon and a newline stays as it is, of any other one everything but its
      last character stays, and these two follow. */
  lemma NormaliseMends(sql: string)
    ensures var r := Normalise(sql);
            if |sql| >= 2 && sql[|sql| - 2] == ';' && sql[|sql| - 1] == '\n' then r == sql
            else if sql == "" then r == ";\n"
            else |r| == |sql| + 1 && r[..|sql| - 1] == sql[..|sql| - 1] && r[|sql| - 1] == ';' && r[|sql|] == '\n'
  {
    if |sql| >= 2 {
      assert sql[|sql| - 2..] == [sql[|sql| - 2], sql[|sql| - 1]];
    }
  }

  /** A statement without its final newline and the semicolon in front of that. */
  function Bare(sql: string): string {
    var line := if sql != "" && sql[|sql| - 1] == '\n' then sql[..|sql| - 1] else sql;
    if line != "" && line[|line| - 1] == ';' then line[..|line| - 1] else line
  }

  lemma BareOfMended(stem: string)
    ensures Bare(stem + ";\n") == stem
  {
    var sql := stem + ";\n";
    assert sql[..|sql| - 1] == stem + ";";
    assert (stem + ";")[..|stem|] == stem;
  }

  /** The mended statement is the same statement exactly if it ended with a semicolon or a newline; otherwise its last
      character is lost. */
  lemma NormaliseKeepsIff(sql: string)
    ensures Bare(Normalise(sql)) == Bare(sql) <==> sql == "" || sql[|sql| - 1] in {';', '\n'}
  {
    if |sql| >= 2 && sql[|sql| - 2..] == ";\n" {
      assert sql[|sql| - 1] == ";\n"[1];
    } else if sql == "" {
      BareOfMended("");
    } else {
      var stem := sql[..|sql| - 1];
      BareOfMended(stem);
      if sql[|sql| - 1] == '\n' && stem != "" {
        assert sql[|sql| - 2..] == [stem[|stem| - 1], '\n'];
      }
    }
  }
}
