/** The argument check every command runs first (src/commands/_internal/check-flags.js).
    Each entry of the parsed argument object is checked against the command's declared
    boolean flags and string parameters; every problem is reported, and the process exits
    with status 1 when there was at least one. */
module CheckFlags {
  import opened Wrappers

  /** The value of a parsed argument, as far as `typeof` tells: a boolean, a string, or
      anything else (a number, an array). */
  datatype ArgValue = BoolArg(b: bool) | StringArg(s: string) | OtherArg

  /** One entry of `Object.entries(args)`. */
  datatype Entry = Entry(key: string, value: ArgValue)

  /** `_` (the positional arguments) and `--` (everything after it) are always accepted. */
  predicate Reserved(key: string) {
    key == "_" || key == "--"
  }

  /** The entry is reported: an undeclared key, a declared flag whose value is not a
      boolean, or a declared parameter whose value is not a string. */
  predicate Rejected(e: Entry, flags: seq<string>, parameters: seq<string>) {
    && !Reserved(e.key)
    && (|| (e.key !in flags && e.key !in parameters)
        || (e.key in flags && !e.value.BoolArg?)
        || (e.key in parameters && !e.value.StringArg?))
  }

  /** The message for a rejected entry; the first check that fails decides it. */
  function Complaint(e: Entry, flags: seq<string>, parameters: seq<string>): string {
    if e.key !in flags && e.key !in parameters then "Error: unknown argument: " + e.key
    else if e.key in flags && !e.value.BoolArg? then "Error: expected " + e.key + " to be a boolean flag"
    else "Error: expected " + e.key + " to have a value"
  }

  /** The messages printed for the entries, in order. */
  function Complaints(args: seq<Entry>, flags: seq<string>, parameters: seq<string>): seq<string> {
    if |args| == 0 then []
    else
      var e := args[|args| - 1];
      Complaints(args[..|args| - 1], flags, parameters)
      + if Rejected(e, flags, parameters) then [Complaint(e, flags, parameters)] else []
  }

  /** There is no early stop: the messages of two runs of entries are those of the first
      followed by those of the second. */
  lemma {:induction false} ComplaintsAppend(a: seq<Entry>, b: seq<Entry>, flags: seq<string>, parameters: seq<string>)
    ensures Complaints(a + b, flags, parameters) == Complaints(a, flags, parameters) + Complaints(b, flags, parameters)
    decreases |b|
  {
    if |b| > 0 {
      ComplaintsAppend(a, b[..|b| - 1], flags, parameters);
      assert (a + b)[..|a + b| - 1] == a + b[..|b| - 1];
      assert (a + b)[|a + b| - 1] == b[|b| - 1];
    } else {
      assert a + b == a;
    }
  }

  /** One message per rejected entry: none exactly when every entry is accepted. */
  lemma {:induction false} ComplaintsMeaning(args: seq<Entry>, flags: seq<string>, parameters: seq<string>)
    ensures |Complaints(args, flags, parameters)| <= |args|
    ensures Complaints(args, flags, parameters) == [] <==>
              forall i :: 0 <= i < |args| ==> !Rejected(args[i], flags, parameters)
    decreases |args|
  {
    if |args| > 0 {
      var init := args[..|args| - 1];
      ComplaintsMeaning(init, flags, parameters);
      assert forall i :: 0 <= i < |init| ==> init[i] == args[i];
    }
  }

  /** A key declared both as a flag and as a parameter is rejected whatever its value: a
      boolean passes the flag check and then fails the parameter check. */
  lemma DeclaredTwiceRejected(e: Entry, flags: seq<string>, parameters: seq<string>)
    requires !Reserved(e.key) && e.key in flags && e.key in parameters
    ensures Rejected(e, flags, parameters)
    ensures e.value.BoolArg? ==> Complaint(e, flags, parameters) == "Error: expected " + e.key + " to have a value"
  {
  }

  /** `checkFlags(args, flags, parameters)`: every entry is checked and each problem
      printed; `exit` is `Some(1)` when the process exits, `None` when the call returns. */
  method CheckFlags(args: seq<Entry>, flags: seq<string>, parameters: seq<string>)
    returns (messages: seq<string>, exit: Option<int>)
    ensures messages == Complaints(args, flags, parameters)
    ensures exit == if exists i :: 0 <= i < |args| && Rejected(args[i], flags, parameters) then Some(1) else None
  {
    var errored := false;
    messages := [];
    for i := 0 to |args|
      invariant messages == Complaints(args[..i], flags, parameters)
      invariant errored <==> exists j :: 0 <= j < i && Rejected(args[j], flags, parameters)
    {
      var key, value := args[i].key, args[i].value;
      assert args[..i + 1][..i] == args[..i];
      if key == "_" || key == "--" {
        continue;
      }
      if !(key in flags || key in parameters) {
        messages := messages + ["Error: unknown argument: " + key];
        errored := true;
        continue;
      }
      if key in flags && !value.BoolArg? {
        messages := messages + ["Error: expected " + key + " to be a boolean flag"];
        errored := true;
        continue;
      }
      if key in parameters && !value.StringArg? {
        messages := messages + ["Error: expected " + key + " to have a value"];
        errored := true;
      }
    }
    assert args[..|args|] == args;
    if errored {
      exit := Some(1);
    } else {
      exit := None;
    }
  }
}
