/** The process-wide helpers of the command-line front end: the binomial
    coefficient behind the memory estimate, the argument tokenizer that fills
    the parameter map, the first-writer-wins output flag and the choice of
    cardinality encoding. The static fields of the program become the fields
    of one `AppState` object. */
module App {
  import Combinatorics
  import opened Results

  // ---------------------------------------------------------------------------
  // binom

  lemma {:induction false} ChooseOne(m: nat)
    ensures Combinatorics.Choose(m, 1) == m
  {
    if m > 0 { ChooseOne(m - 1); }
  }

  /** One round of the loop of binom: multiplying C(m - 1, i - 1) by m and
      dividing by i is exact and gives C(m, i), for m = n - k + i. */
  lemma RoundExact(n: int, k: int, i: int, r: int)
    requires 1 <= k <= n && 2 <= i <= k
    requires r == Combinatorics.Choose(n - k + i - 1, i - 1)
    ensures (r * (n - k + i)) % i == 0 && (r * (n - k + i)) / i == Combinatorics.Choose(n - k + i, i)
  {
    var c := Combinatorics.Choose(n - k + i, i);
    Combinatorics.ChooseAbsorption(n - k + i, i);
    assert r * (n - k + i) == i * c;
    DivideExact(c, i);
  }

  lemma DivideExact(x: int, d: int)
    requires d > 0
    ensures (d * x) % d == 0 && (d * x) / d == x
  {
    var q, m := (d * x) / d, (d * x) % d;
    assert d * q + m == d * x && 0 <= m < d;
    assert d * (x - q) == m by { Combinatorics.Distribute(d, x, -q); }
    if x - q >= 1 {
      assert false;
    } else if x - q <= -1 {
      assert false;
    }
  }

  /** n choose k on unbounded integers, by the product formula with exact
      divisions, after reflecting k into the lower half of the row. */
  method Binom(n: int, k: int) returns (r: int)
    ensures r == Combinatorics.Binomial(n, k)
    ensures k > n ==> r == 0
    ensures 0 <= k <= n ==> r * (Combinatorics.Fact(k) * Combinatorics.Fact(n - k)) == Combinatorics.Fact(n)
    decreases if k <= n && k != 0 && 2 * k > n then 1 else 0
  {
    if k > n {
      return 0;
    }
    if k == 0 {
      return 1;
    } else if k * 2 > n {
      // here 2 * (n - k) < n, so the inner call does not reflect again
      r := Binom(n, n - k);
      Combinatorics.BinomialSymmetric(n, k);
      Combinatorics.BinomialFactorial(n, k);
      return;
    }
    r := n - k + 1;
    if k >= 1 { ChooseOne(n - k + 1); }
    var i := 2;
    while i <= k
      invariant k < 1 ==> i == 2 && r == n - k + 1
      invariant k >= 1 ==> 2 <= i <= k + 1 && r == Combinatorics.Choose(n - k + i - 1, i - 1)
    {
      RoundExact(n, k, i, r);
      r := r * (n - k + i);
      // the division is exact, so BigInteger.divide and Dafny's / agree
      r := r / i;
      i := i + 1;
    }
    if k >= 1 { Combinatorics.BinomialFactorial(n, k); }
  }

  // ---------------------------------------------------------------------------
  // setSATEncoding

  /** The cardinality encodings a SAT formula may use for its at-most-k constraints. */
  datatype Encoding = Binomial | Sequential | Binary | Commander | PBLib | PBLibIncremental

  /** The command-line name of each encoding. */
  function EncodingName(e: Encoding): string
  {
    match e
    case Binomial => "binomial"
    case Sequential => "sequential"
    case Binary => "binary"
    case Commander => "commander"
    case PBLib => "PBLib"
    case PBLibIncremental => "PBLib_incremental"
  }

  /** The encoding a name selects, if any: exactly the six names above select one,
      each its own encoding. */
  function EncodingNamed(name: string): (r: Option<Encoding>)
    ensures r.Some? ==> EncodingName(r.value) == name
    ensures forall e :: EncodingName(e) == name ==> r == Some(e)
  {
    if name == "binomial" then Some(Binomial)
    else if name == "sequential" then Some(Sequential)
    else if name == "binary" then Some(Binary)
    else if name == "commander" then Some(Commander)
    else if name == "PBLib" then Some(PBLib)
    else if name == "PBLib_incremental" then Some(PBLibIncremental)
    else None
  }

  // ---------------------------------------------------------------------------
  // parseArguments

  /** Why parsing stops; the source prints an error and exits the process
      (or, for an empty argument, fails on reading its first character). */
  datatype ArgError = EmptyArgument(index: nat) | MalformedOption(index: nat)

  /** Argument j is one the tokenizer rejects: an empty string, a lone dash,
      or a one-letter option with no value after it. */
  predicate Malformed(args: seq<string>, j: nat)
    requires j < |args|
  {
    |args[j]| == 0 ||
    (args[j][0] == '-' && args[j] != "-h" &&
     (|args[j]| < 2 || (|args[j]| == 2 && j == |args| - 1)))
  }

  /** Argument j stores an entry under `key`. */
  predicate Stores(args: seq<string>, j: nat, key: string)
    requires j < |args|
  {
    |args[j]| >= 2 && args[j][0] == '-' && args[j] != "-h" && args[j][1..] == key
  }

  /** The value argument j stores: the next token for a one-letter option,
      the empty string for a longer flag. */
  function StoredValue(args: seq<string>, j: nat): string
    requires j < |args|
  {
    if |args[j]| == 2 && j + 1 < |args| then args[j + 1] else ""
  }

  /** The effect of argument i on the parameter map. */
  function ParseStep(params: map<string, string>, args: seq<string>, i: nat): Result<map<string, string>, ArgError>
    requires i < |args|
  {
    var a := args[i];
    if |a| == 0 then Err(EmptyArgument(i))
    else if a[0] != '-' || a == "-h" then Ok(params)
    else if |a| < 2 || (|a| == 2 && i == |args| - 1) then Err(MalformedOption(i))
    else if |a| == 2 then Ok(params[a[1..] := args[i + 1]])
    else Ok(params[a[1..] := ""])
  }

  /** The parameter map after arguments i.. have been processed, left to right. */
  function ParseFrom(params: map<string, string>, args: seq<string>, i: nat): Result<map<string, string>, ArgError>
    requires i <= |args|
    decreases |args| - i
  {
    if i == |args| then Ok(params)
    else match ParseStep(params, args, i)
      case Err(e) => Err(e)
      case Ok(p) => ParseFrom(p, args, i + 1)
  }

  /** Parsing fails exactly when some argument is malformed, and it reports the
      first malformed one, with the kind of its defect. */
  lemma {:induction false} ParseFailsAtFirstMalformed(params: map<string, string>, args: seq<string>, i: nat)
    requires i <= |args|
    ensures ParseFrom(params, args, i).Err? <==> exists j :: i <= j < |args| && Malformed(args, j)
    ensures ParseFrom(params, args, i).Err? ==>
      var j := ParseFrom(params, args, i).error.index;
      && i <= j < |args| && Malformed(args, j)
      && (forall j' :: i <= j' < j ==> !Malformed(args, j'))
      && ParseFrom(params, args, i).error == (if |args[j]| == 0 then EmptyArgument(j) else MalformedOption(j))
    decreases |args| - i
  {
    if i < |args| {
      match ParseStep(params, args, i)
      case Err(e) =>
        assert Malformed(args, i);
      case Ok(p) =>
        ParseFailsAtFirstMalformed(p, args, i + 1);
    }
  }

  /** A key that no argument from i on stores keeps its entry, or its absence. */
  lemma {:induction false} ParseKeepsUntouchedKey(params: map<string, string>, args: seq<string>, i: nat, key: string)
    requires i <= |args|
    requires ParseFrom(params, args, i).Ok?
    requires forall j :: i <= j < |args| ==> !Stores(args, j, key)
    ensures var m := ParseFrom(params, args, i).value;
      (key in m <==> key in params) && (key in params ==> m[key] == params[key])
    decreases |args| - i
  {
    if i < |args| {
      assert !Stores(args, i, key);
      var p := ParseStep(params, args, i).value;
      ParseKeepsUntouchedKey(p, args, i + 1, key);
    }
  }

  /** The last argument that stores a key decides its value. */
  lemma {:induction false} ParseLastWriteWins(params: map<string, string>, args: seq<string>, i: nat, j: nat, key: string)
    requires i <= j < |args|
    requires ParseFrom(params, args, i).Ok?
    requires Stores(args, j, key)
    requires forall j' :: j < j' < |args| ==> !Stores(args, j', key)
    ensures key in ParseFrom(params, args, i).value
    ensures ParseFrom(params, args, i).value[key] == StoredValue(args, j)
    decreases |args| - i
  {
    var p := ParseStep(params, args, i).value;
    if i < j {
      ParseLastWriteWins(p, args, i + 1, j, key);
    } else {
      assert key in p && p[key] == StoredValue(args, j);
      ParseKeepsUntouchedKey(p, args, i + 1, key);
    }
  }

  /** "-h" only prints the help text: the key "h" is never stored. */
  lemma ParseNeverStoresHelp(params: map<string, string>, args: seq<string>)
    requires ParseFrom(params, args, 0).Ok?
    ensures "h" in ParseFrom(params, args, 0).value <==> "h" in params
  {
    ParseKeepsUntouchedKey(params, args, 0, "h");
  }

  // ---------------------------------------------------------------------------
  // shouldIWrite

  /** One call of the output guard: the answer and the new flag. */
  function WriteStep(written: bool): (bool, bool)
  {
    (!written, true)
  }

  /** The answers of `calls` successive calls, starting from flag `written`. */
  function Answers(written: bool, calls: nat): (r: seq<bool>)
    ensures |r| == calls
    decreases calls
  {
    if calls == 0 then []
    else [WriteStep(written).0] + Answers(WriteStep(written).1, calls - 1)
  }

  /** First writer wins: from an unset flag only the first call answers true. */
  lemma {:induction false} OnlyFirstCallWrites(written: bool, calls: nat)
    ensures forall j :: 0 <= j < calls ==> Answers(written, calls)[j] == (j == 0 && !written)
    decreases calls
  {
    if calls > 0 {
      OnlyFirstCallWrites(true, calls - 1);
    }
  }

  // ---------------------------------------------------------------------------
  // The program's static state

  class AppState {
    /** The parsed command-line parameters. */
    var parameters: map<string, string>
    /** Whether a decomposition has been written already. */
    var resultWritten: bool
    /** The cardinality encoding the SAT encodings use. */
    var usedEncoding: Encoding

    constructor (defaultEncoding: Encoding)
      ensures parameters == map[] && !resultWritten && usedEncoding == defaultEncoding
    {
      parameters := map[];
      resultWritten := false;
      usedEncoding := defaultEncoding;
    }

    /** Processes the arguments left to right; on a malformed argument stops and
        reports it (the source exits the process there). */
    method ParseArguments(args: seq<string>) returns (failure: Option<ArgError>)
      modifies this`parameters
      ensures ParseFrom(old(parameters), args, 0) ==
        (if failure.None? then Ok(parameters) else Err(failure.value))
    {
      for i := 0 to |args|
        invariant ParseFrom(parameters, args, i) == ParseFrom(old(parameters), args, 0)
      {
        var a := args[i];
        if |a| == 0 {
          return Some(EmptyArgument(i));
        }
        if a[0] == '-' {
          if a == "-h" {
            // the help text is printed here
            continue;
          }
          if |a| < 2 || (|a| == 2 && i == |args| - 1) {
            return Some(MalformedOption(i));
          }
          if |a| == 2 {
            parameters := parameters[a[1..] := args[i + 1]];
          } else {
            parameters := parameters[a[1..] := ""];
          }
        }
      }
      return None;
    }

    /** Answers true on the first call only, and sets the flag for good. */
    method ShouldIWrite() returns (write: bool)
      modifies this`resultWritten
      ensures write == !old(resultWritten) && resultWritten
      ensures (write, resultWritten) == WriteStep(old(resultWritten))
    {
      write := true;
      if resultWritten {
        write := false;
      }
      resultWritten := true;
    }

    /** Selects the encoding a known name stands for; any other name changes nothing. */
    method SetSATEncoding(name: string)
      modifies this`usedEncoding
      ensures usedEncoding == (if EncodingNamed(name).Some? then EncodingNamed(name).value else old(usedEncoding))
    {
      if name == "binomial" {
        usedEncoding := Binomial;
      } else if name == "sequential" {
        usedEncoding := Sequential;
      } else if name == "binary" {
        usedEncoding := Binary;
      } else if name == "commander" {
        usedEncoding := Commander;
      } else if name == "PBLib" {
        usedEncoding := PBLib;
      } else if name == "PBLib_incremental" {
        usedEncoding := PBLibIncremental;
      }
    }
  }
}
