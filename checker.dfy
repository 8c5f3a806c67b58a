/**
 * The checker object of the plugin: it turns the editor buffer into one
 * text, looks the text's digest up in a bounded first-in-first-out cache
 * and, on a miss, runs the external style checker and parses its report.
 *
 * The external process is represented by what it hands back, its exit code
 * and its standard output; the digest is an arbitrary function fixed when
 * the checker is built.
 */
module Checker {
  import opened Wrappers
  import opened Strings
  import opened Report

  /** What makes a check raise instead of returning diagnostics. */
  datatype Error =
    | MalformedLine(line: string)  // a non-blank report line with fewer than three colons
    | PopFromEmpty                 // eviction from an empty cache, possible only with a negative limit

  /** What the checker process returned. */
  datatype ProcessResult = ProcessResult(returncode: int, stdout: string)

  /** What `_check` does with an exit code. */
  datatype Action = Empty | Parse

  /**
   * Exit code 0 means no violation and a code above 1 a failure of the tool;
   * both give an empty result. Code 1 reports violations, and a negative
   * code matches no branch, so both go on to parse the output.
   */
  function Dispatch(returncode: int): (a: Action)
    ensures a == Parse <==> returncode == 1 || returncode < 0
    ensures a == Empty <==> returncode == 0 || returncode > 1
  {
    if returncode == 0 then Empty
    else if returncode == 1 then Parse
    else if returncode > 1 then Empty
    else Parse
  }

  /** The result of `_check` for a given process outcome. */
  function CheckOutput(run: ProcessResult): Result<seq<Diagnostic>, Error> {
    match Dispatch(run.returncode)
    case Empty => Success([])
    case Parse =>
      match ParseLines(Split(run.stdout, '\n'))
      case Success(ds) => Success(ds)
      case Failure(line) => Failure(MalformedLine(line))
  }

  /**
   * `_check` after the temporary file and the process: dispatch on the exit
   * code, then parse the report.
   */
  method RunChecker(run: ProcessResult) returns (r: Result<seq<Diagnostic>, Error>)
    ensures r == CheckOutput(run)
    ensures run.returncode == 0 || run.returncode > 1 ==> r == Success([])
  {
    if run.returncode == 0 {
      return Success([]);
    } else if run.returncode == 1 {
    } else if run.returncode > 1 {
      return Success([]);
    }
    var parsed := ParseReport(run.stdout);
    match parsed
    case Success(ds) => r := Success(ds);
    case Failure(line) => r := Failure(MalformedLine(line));
  }

  /** A clean run and a failed tool both give no diagnostics; a report is parsed as a whole. */
  lemma CheckOutputCases(run: ProcessResult)
    ensures run.returncode == 0 ==> CheckOutput(run) == Success([])
    ensures run.returncode > 1 ==> CheckOutput(run) == Success([])
    ensures run.returncode == 1 || run.returncode < 0 ==>
              (CheckOutput(run).Success? <==> AllWellFormed(NonBlank(Split(run.stdout, '\n'))))
  {
    ParseLinesSucceeds(Split(run.stdout, '\n'));
  }

  /** The text handed to the checker: every buffer line followed by a newline. */
  function BufferText(buffer: seq<string>): (text: string)
    ensures |text| > 0 && text[|text| - 1] == '\n'
  {
    Join(buffer, '\n') + "\n"
  }

  /**
   * The text holds the lines' own newlines plus one terminator per line (a
   * single one for the empty buffer).
   */
  lemma BufferTextNewlines(buffer: seq<string>)
    ensures multiset(BufferText(buffer))['\n']
         == multiset(Concat(buffer))['\n'] + (if |buffer| == 0 then 1 else |buffer|)
  {
    if |buffer| > 0 {
      JoinCount(buffer, '\n');
    }
  }

  /** Lines without newlines of their own come back from the text, followed by an empty piece. */
  lemma BufferTextLines(buffer: seq<string>)
    requires |buffer| > 0
    requires forall k :: 0 <= k < |buffer| ==> '\n' !in buffer[k]
    ensures Split(BufferText(buffer), '\n') == buffer + [""]
  {
    SplitTrailing(Join(buffer, '\n'), '\n');
    SplitJoin(buffer, '\n');
  }

  /** One cache entry: a digest and the diagnostics computed for the text it digests. */
  datatype Entry = Entry(key: string, diagnostics: seq<Diagnostic>)

  /** The keys of the cache, oldest first. */
  function Keys(entries: seq<Entry>): (keys: seq<string>)
    ensures |keys| == |entries|
    ensures forall i :: 0 <= i < |entries| ==> keys[i] == entries[i].key
  {
    seq(|entries|, i requires 0 <= i < |entries| => entries[i].key)
  }

  /** No key occurs twice: the cache is a dictionary. */
  predicate UniqueKeys(entries: seq<Entry>) {
    forall i, j :: 0 <= i < j < |entries| ==> entries[i].key != entries[j].key
  }

  /** How many entries the cache can hold: one more than the limit, as eviction waits for the limit to be exceeded. */
  function Capacity(limit: int): nat {
    if limit < 0 then 0 else limit + 1
  }

  /** The cache invariant: a dictionary of at most `Capacity(limit)` entries. */
  predicate CacheInvariant(entries: seq<Entry>, limit: int) {
    UniqueKeys(entries) && |entries| <= Capacity(limit)
  }

  /** `key in cache` and `cache[key]`. */
  function Lookup(entries: seq<Entry>, key: string): (r: Option<seq<Diagnostic>>)
    ensures r.None? <==> key !in Keys(entries)
    ensures r.Some? ==> Entry(key, r.value) in entries
  {
    if entries == [] then None
    else if entries[0].key == key then Some(entries[0].diagnostics)
    else
      assert Keys(entries) == [entries[0].key] + Keys(entries[1..]);
      Lookup(entries[1..], key)
  }

  /**
   * `if len(cache) > limit: cache.popitem(0)`: the oldest entry goes once the
   * limit is exceeded; popping from an empty dictionary raises.
   */
  function Evict(entries: seq<Entry>, limit: int): Option<seq<Entry>> {
    if |entries| > limit then
      if entries == [] then None else Some(entries[1..])
    else Some(entries)
  }

  /** What one call of `check` returns and the cache it leaves. */
  datatype Outcome = Outcome(result: Result<seq<Diagnostic>, Error>, cache: seq<Entry>)

  /**
   * One call of `check` on a text with digest `key`, where `computed` is what
   * `_check` gives for the text: a hit returns the stored diagnostics; a miss
   * evicts, and then either stores the computed diagnostics last or, when
   * `_check` raises, keeps the cache as the eviction left it.
   */
  function Step(entries: seq<Entry>, limit: int, key: string, computed: Result<seq<Diagnostic>, Error>): Outcome {
    match Lookup(entries, key)
    case Some(stored) => Outcome(Success(stored), entries)
    case None =>
      match Evict(entries, limit)
      case None => Outcome(Failure(PopFromEmpty), entries)
      case Some(kept) =>
        match computed
        case Failure(e) => Outcome(Failure(e), kept)
        case Success(ds) => Outcome(Success(ds), kept + [Entry(key, ds)])
  }

  /** A hit returns the diagnostics stored under the key and changes nothing. */
  lemma StepHit(entries: seq<Entry>, limit: int, key: string, computed: Result<seq<Diagnostic>, Error>, i: nat)
    requires UniqueKeys(entries)
    requires i < |entries| && entries[i].key == key
    ensures Step(entries, limit, key, computed) == Outcome(Success(entries[i].diagnostics), entries)
  {
    assert Keys(entries)[i] == key;
    var stored := Lookup(entries, key).value;
    var j :| 0 <= j < |entries| && entries[j] == Entry(key, stored);
    assert i == j;
  }

  /**
   * A miss drops at most one entry, the oldest, and only once the limit is
   * exceeded; the other entries keep their values and their order; the new
   * entry, when `_check` returns, is stored last with what it returned.
   */
  lemma StepMiss(entries: seq<Entry>, limit: int, key: string, computed: Result<seq<Diagnostic>, Error>)
    requires key !in Keys(entries)
    ensures var o := Step(entries, limit, key, computed);
            var drop := if |entries| > limit then 1 else 0;
            if entries == [] && drop == 1 then
              o == Outcome(Failure(PopFromEmpty), entries)
            else
              o.result == computed &&
              |o.cache| == |entries| - drop + (if computed.Success? then 1 else 0) &&
              o.cache[..|entries| - drop] == entries[drop..] &&
              (computed.Success? ==> o.cache[|o.cache| - 1] == Entry(key, computed.value))
  {
    var drop := if |entries| > limit then 1 else 0;
    if !(entries == [] && drop == 1) {
      var kept := entries[drop..];
      assert Evict(entries, limit) == Some(kept);
      match computed
      case Failure(_) =>
        assert kept[..|kept|] == kept;
      case Success(ds) =>
        assert (kept + [Entry(key, ds)])[..|kept|] == kept;
    }
  }

  /** Every call keeps the cache a dictionary of at most `Capacity(limit)` entries. */
  lemma StepKeepsInvariant(entries: seq<Entry>, limit: int, key: string, computed: Result<seq<Diagnostic>, Error>)
    requires CacheInvariant(entries, limit)
    ensures CacheInvariant(Step(entries, limit, key, computed).cache, limit)
  {
    if key !in Keys(entries) && Evict(entries, limit).Some? && computed.Success? {
      var kept := Evict(entries, limit).value;
      var next := kept + [Entry(key, computed.value)];
      assert forall i :: 0 <= i < |kept| ==> kept[i].key in Keys(entries) by {
        forall i | 0 <= i < |kept|
          ensures kept[i].key in Keys(entries)
        {
          var j := if |entries| > limit then i + 1 else i;
          assert kept[i] == entries[j];
          assert Keys(entries)[j] == kept[i].key;
        }
      }
      assert UniqueKeys(next) by {
        forall i, j | 0 <= i < j < |next|
          ensures next[i].key != next[j].key
        {
          if j == |kept| {
            assert next[i] == kept[i];
          } else {
            var d := if |entries| > limit then 1 else 0;
            assert next[i] == entries[i + d] && next[j] == entries[j + d];
          }
        }
      }
    }
  }

  /** A cache exactly at the limit is not yet evicted: a miss makes it grow to the limit plus one. */
  lemma StepAtLimitGrows(entries: seq<Entry>, limit: int, key: string, ds: seq<Diagnostic>)
    requires |entries| == limit && key !in Keys(entries)
    ensures Step(entries, limit, key, Success(ds)).cache == entries + [Entry(key, ds)]
    ensures |Step(entries, limit, key, Success(ds)).cache| == limit + 1
  {
  }

  /** A call made to a checker: the digest of its text and what `_check` gives for that text. */
  datatype Call = Call(key: string, computed: Result<seq<Diagnostic>, Error>)

  /** The cache after a series of calls on a checker created with an empty cache. */
  function Replay(limit: int, calls: seq<Call>): seq<Entry> {
    if calls == [] then []
    else
      var last := calls[|calls| - 1];
      Step(Replay(limit, calls[..|calls| - 1]), limit, last.key, last.computed).cache
  }

  /** Every entry a series of calls stored, in the order they were stored. */
  function Stored(limit: int, calls: seq<Call>): seq<Entry> {
    if calls == [] then []
    else
      var before := Replay(limit, calls[..|calls| - 1]);
      var last := calls[|calls| - 1];
      var stored := Stored(limit, calls[..|calls| - 1]);
      var o := Step(before, limit, last.key, last.computed);
      if Lookup(before, last.key).None? && o.result.Success? then stored + [Entry(last.key, o.result.value)]
      else stored
  }

  /** Starting from the empty cache, every series of calls keeps the cache invariant. */
  lemma {:induction false} ReplayKeepsInvariant(limit: int, calls: seq<Call>)
    ensures CacheInvariant(Replay(limit, calls), limit)
  {
    if calls != [] {
      var last := calls[|calls| - 1];
      ReplayKeepsInvariant(limit, calls[..|calls| - 1]);
      StepKeepsInvariant(Replay(limit, calls[..|calls| - 1]), limit, last.key, last.computed);
    }
  }

  /** `tail` is what remains of `whole` after dropping some of its first elements. */
  predicate IsSuffix(tail: seq<Entry>, whole: seq<Entry>) {
    |tail| <= |whole| && tail == whole[|whole| - |tail|..]
  }

  /** Dropping the first element of a suffix leaves a suffix. */
  lemma SuffixDropFirst(tail: seq<Entry>, whole: seq<Entry>)
    requires IsSuffix(tail, whole) && tail != []
    ensures IsSuffix(tail[1..], whole)
  {
    assert tail[1..] == whole[|whole| - |tail| + 1..];
  }

  /** Appending the same element to both keeps a suffix a suffix. */
  lemma SuffixAppend(tail: seq<Entry>, whole: seq<Entry>, e: Entry)
    requires IsSuffix(tail, whole)
    ensures IsSuffix(tail + [e], whole + [e])
  {
    assert (whole + [e])[|whole| - |tail|..] == whole[|whole| - |tail|..] + [e];
  }

  /**
   * First in, first out: the cache is always the most recently stored
   * entries, in the order they were stored, so whatever was evicted was
   * stored before everything that remains.
   */
  lemma {:induction false} ReplayIsNewestStored(limit: int, calls: seq<Call>)
    ensures IsSuffix(Replay(limit, calls), Stored(limit, calls))
  {
    if calls != [] {
      var init := calls[..|calls| - 1];
      var last := calls[|calls| - 1];
      ReplayIsNewestStored(limit, init);
      var before, stored := Replay(limit, init), Stored(limit, init);
      if Lookup(before, last.key).None? {
        match Evict(before, limit)
        case None =>
        case Some(kept) =>
          if kept != before {
            SuffixDropFirst(before, stored);
          }
          match last.computed
          case Failure(_) =>
          case Success(ds) =>
            SuffixAppend(kept, stored, Entry(last.key, ds));
      }
    }
  }

  /**
   * The plugin's checker object: the digest it keys the cache with, the
   * cache limit, and the cache itself, oldest entry first.
   */
  class Pep8Checker {
    const digest: string -> string
    const cacheLimit: int
    var cache: seq<Entry>
    /** How many times `_check` has been entered, that is how many processes were started. */
    ghost var invocations: nat

    ghost predicate Valid()
      reads this
    {
      CacheInvariant(cache, cacheLimit)
    }

    constructor (digest: string -> string, cacheLimit: int := 10)
      ensures this.digest == digest && this.cacheLimit == cacheLimit
      ensures cache == [] && invocations == 0
      ensures Valid()
    {
      this.digest := digest;
      this.cacheLimit := cacheLimit;
      cache := [];
      invocations := 0;
    }

    /**
     * `check`: the result and the new cache are those of `Step` for the
     * buffer's digest and the process outcome; the checker is started only
     * on a miss whose eviction succeeded.
     */
    method Check(buffer: seq<string>, run: ProcessResult) returns (r: Result<seq<Diagnostic>, Error>)
      requires Valid()
      modifies this
      ensures Valid()
      ensures var key := digest(BufferText(buffer));
              Outcome(r, cache) == Step(old(cache), cacheLimit, key, CheckOutput(run))
      ensures var key := digest(BufferText(buffer));
              invocations == old(invocations) +
                (if Lookup(old(cache), key).None? && Evict(old(cache), cacheLimit).Some? then 1 else 0)
    {
      var data := BufferText(buffer);
      var key := digest(data);
      StepKeepsInvariant(cache, cacheLimit, key, CheckOutput(run));
      var stored := Lookup(cache, key);
      if stored.Some? {
        return Success(stored.value);
      }
      if |cache| > cacheLimit {
        if cache == [] {
          return Failure(PopFromEmpty);
        }
        cache := cache[1..];
      }
      invocations := invocations + 1;
      r := RunChecker(run);
      if r.Success? {
        cache := cache + [Entry(key, r.value)];
      }
    }
  }
}
