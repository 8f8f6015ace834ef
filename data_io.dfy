/**
  * DataIO: the stored form of all loadouts, one loadout text per line, and
  * its lenient parser, which drops the lines it cannot decode.
  */
module DataIO {
  import opened Wrappers
  import opened JavaText
  import opened Loadouts

  /** decoded.split("\n"): trailing empty lines dropped, but a text without a line break is one line. */
  function Lines(s: string): seq<string>
  {
    SplitDroppingTrailing(s, '\n')
  }

  /** The lines are the pieces between line breaks, in order, with only empty pieces dropped at the end. */
  lemma LinesShape(s: string)
    ensures forall i :: 0 <= i < |Lines(s)| ==> '\n' !in Lines(s)[i]
    ensures Lines(s) == Split(s, '\n')[..|Lines(s)|]
    ensures forall i :: |Lines(s)| <= i < |Split(s, '\n')| ==> Split(s, '\n')[i] == ""
  {
    SplitDroppingTrailingPrefix(s, '\n');
  }

  /** The map of Parse: every line decoded (a thrown exception becomes Err). */
  function DecodeEach(lines: seq<string>): (r: seq<Result<Loadout>>)
    ensures |r| == |lines| && forall i :: 0 <= i < |lines| ==> r[i] == Deserialize(lines[i])
  {
    seq(|lines|, i requires 0 <= i < |lines| => Deserialize(lines[i]))
  }

  /** The nonNull filter of Parse: the decoded values, the failures left out, in order. */
  function Kept<T>(results: seq<Result<T>>): (r: seq<T>)
    ensures |r| <= |results|
    ensures |r| == |results| <==> forall i :: 0 <= i < |results| ==> results[i].Ok?
    ensures forall i :: 0 <= i < |r| ==> Ok(r[i]) in results
  {
    if |results| == 0 then []
    else
      var rest := Kept(results[1..]);
      assert forall x :: x in results[1..] ==> x in results;
      if results[0].Ok? then [results[0].value] + rest else rest
  }

  /** The number of results that are failures. */
  function Failures<T>(results: seq<Result<T>>): nat
  {
    if |results| == 0 then 0 else (if results[0].Err? then 1 else 0) + Failures(results[1..])
  }

  /** Every result is either kept or counted as a failure. */
  lemma {:induction false} KeptCount<T>(results: seq<Result<T>>)
    ensures |Kept(results)| + Failures(results) == |results|
  {
    if |results| > 0 {
      KeptCount(results[1..]);
    }
  }

  /** Parse: the non-blank lines, decoded; a line that does not decode is dropped. */
  function Parse(decoded: string): seq<Loadout>
  {
    Kept(DecodeEach(NonBlank(Lines(decoded))))
  }

  /**
    * The warning Parse prints, as written: (lines - loadouts, lines) whenever
    * the number of lines, blank ones included, differs from the number of loadouts.
    */
  function ParseWarning(decoded: string): Option<(int, nat)>
  {
    var lines := Lines(decoded);
    var result := Parse(decoded);
    if |lines| != |result| then Some((|lines| - |result|, |lines|)) else None
  }

  /** Every parsed loadout is the decoding of a non-blank line. */
  lemma ParsedLines(decoded: string, l: Loadout)
    requires l in Parse(decoded)
    ensures exists j :: 0 <= j < |NonBlank(Lines(decoded))| && Deserialize(NonBlank(Lines(decoded))[j]) == Ok(l)
  {
    var candidates := NonBlank(Lines(decoded));
    var results := DecodeEach(candidates);
    assert l in Kept(results);
    var j := KeptFrom(results, l);
    assert Deserialize(candidates[j]) == Ok(l);
  }

  /** Where a kept value comes from: a position of the results that holds it. */
  lemma KeptFrom<T>(results: seq<Result<T>>, x: T) returns (j: nat)
    requires x in Kept(results)
    ensures j < |results| && results[j] == Ok(x)
  {
    var i :| 0 <= i < |Kept(results)| && Kept(results)[i] == x;
    j :| 0 <= j < |results| && results[j] == Ok(x);
  }

  /** The loadouts and the lines that fail to decode together account for every non-blank line. */
  lemma ParsedCount(decoded: string)
    ensures |Parse(decoded)| + Failures(DecodeEach(NonBlank(Lines(decoded)))) == |NonBlank(Lines(decoded))|
  {
    KeptCount(DecodeEach(NonBlank(Lines(decoded))));
  }

  /**
    * As written, the warning counts every blank line as a failed loadout: it
    * is given exactly when a line is blank or a non-blank one fails to decode,
    * and then reports the blank lines plus the failures, out of all lines.
    */
  lemma WarningCounts(decoded: string)
    ensures var lines := Lines(decoded);
      var results := DecodeEach(NonBlank(lines));
      (ParseWarning(decoded).Some? <==> |NonBlank(lines)| < |lines| || Failures(results) > 0)
      && (ParseWarning(decoded).Some? ==>
        ParseWarning(decoded).value == (|lines| - |NonBlank(lines)| + Failures(results), |lines|))
  {
    var results := DecodeEach(NonBlank(Lines(decoded)));
    assert Parse(decoded) == Kept(results);
    KeptCount(results);
  }

  /**
    * The warning as evidently intended, from the decode results of the
    * non-blank lines: (dropped, non-blank lines), given exactly when one of
    * them failed to decode.
    */
  function DropReport<T>(results: seq<Result<T>>): (r: Option<(nat, nat)>)
    ensures r.Some? <==> exists i :: 0 <= i < |results| && results[i].Err?
    ensures r.Some? ==> 0 < r.value.0 <= r.value.1 == |results|
    ensures r.Some? ==> r.value.0 == Failures(results)
  {
    var kept := Kept(results);
    KeptShorter(results);
    KeptCount(results);
    if |results| != |kept| then Some((|results| - |kept|, |results|)) else None
  }

  /** Parse keeps fewer values than it has candidate lines exactly when some line fails to decode. */
  lemma FailureShortensKept(candidates: seq<string>)
    ensures |Kept(DecodeEach(candidates))| != |candidates| <==>
      exists i :: 0 <= i < |candidates| && Deserialize(candidates[i]).Err?
  {
    var results := DecodeEach(candidates);
    KeptShorter(results);
    if |Kept(results)| != |candidates| {
      var i :| 0 <= i < |results| && results[i].Err?;
      assert results[i] == Deserialize(candidates[i]);
    }
  }

  /** The filter keeps fewer values than it is given exactly when one of them failed. */
  lemma KeptShorter<T>(results: seq<Result<T>>)
    ensures |Kept(results)| != |results| <==> exists i :: 0 <= i < |results| && results[i].Err?
  {
    if |Kept(results)| != |results| {
      var i :| 0 <= i < |results| && !results[i].Ok?;
    }
  }

  /** The SerializeString of each loadout. */
  function SerializeEach(loadouts: seq<Loadout>): (r: seq<Result<string>>)
    ensures |r| == |loadouts| && forall i :: 0 <= i < |loadouts| ==> r[i] == Serialize(loadouts[i])
  {
    seq(|loadouts|, i requires 0 <= i < |loadouts| => Serialize(loadouts[i]))
  }

  /** FullSerialize: the loadout texts, one per line; it throws when one of them does. */
  function FullSerialize(loadouts: seq<Loadout>): (r: Result<string>)
    ensures r.Err? <==> exists i :: 0 <= i < |loadouts| && None in loadouts[i].equipment
  {
    var texts :- Collect(SerializeEach(loadouts));
    Ok(Join(texts, '\n'))
  }

  /** A loadout that survives saving and loading: see Loadouts.RoundTrip, plus no line break in its name. */
  predicate Storable(l: Loadout)
  {
    NoLeadingWhitespace(l.name) && '\n' !in l.name && None !in l.equipment
  }

  /** The text of a storable loadout is one non-blank line that decodes back to it. */
  lemma StorableLine(l: Loadout)
    requires Storable(l)
    ensures Serialize(l).Ok?
    ensures '\n' !in Serialize(l).value && !IsBlank(Serialize(l).value)
    ensures Deserialize(Serialize(l).value) == Ok(l)
  {
    Loadouts.RoundTrip(l);
  }

  /** Lines of the joined texts: the texts themselves, when each is a non-empty line. */
  lemma LinesOfJoin(texts: seq<string>)
    requires forall i :: 0 <= i < |texts| ==> '\n' !in texts[i] && texts[i] != ""
    ensures |texts| > 0 ==> Lines(Join(texts, '\n')) == texts
    ensures |texts| == 0 ==> Lines(Join(texts, '\n')) == [""]
  {
    var s := Join(texts, '\n');
    if |texts| > 0 {
      SplitJoin(texts, '\n');
      if '\n' in s {
        assert DropTrailingEmpty(texts) == texts;
      } else {
        SplitWithoutDelimiter(s, '\n');
      }
    }
  }

  /** Saving storable loadouts and parsing the text gives the same loadouts, in the same order. */
  lemma RoundTrip(loadouts: seq<Loadout>)
    requires forall i :: 0 <= i < |loadouts| ==> Storable(loadouts[i])
    ensures FullSerialize(loadouts).Ok?
    ensures Parse(FullSerialize(loadouts).value) == loadouts
  {
    SavedLines(loadouts);
    var serialized := SerializeEach(loadouts);
    var texts := Collect(serialized).value;
    var results := DecodeEach(texts);
    forall i | 0 <= i < |results|
      ensures results[i] == Ok(loadouts[i])
    {
      StorableLine(loadouts[i]);
      assert serialized[i] == Ok(texts[i]);
    }
    KeptAll(results, loadouts);
    assert Parse(FullSerialize(loadouts).value) == Kept(results);
  }

  /** The non-blank lines of the saved text are the loadout texts. */
  lemma SavedLines(loadouts: seq<Loadout>)
    requires forall i :: 0 <= i < |loadouts| ==> Storable(loadouts[i])
    ensures FullSerialize(loadouts).Ok?
    ensures NonBlank(Lines(FullSerialize(loadouts).value)) == Collect(SerializeEach(loadouts)).value
  {
    var results := SerializeEach(loadouts);
    forall i | 0 <= i < |loadouts| ensures results[i].Ok? {
      StorableLine(loadouts[i]);
    }
    var texts := Collect(results).value;
    forall i | 0 <= i < |texts|
      ensures '\n' !in texts[i] && !IsBlank(texts[i]) && texts[i] != ""
    {
      StorableLine(loadouts[i]);
      assert results[i] == Ok(texts[i]);
    }
    LinesOfJoin(texts);
    if |texts| > 0 {
      NonBlankAll(texts);
    } else {
      assert NonBlank([""]) == [];
    }
  }

  lemma {:induction false} KeptAll(results: seq<Result<Loadout>>, loadouts: seq<Loadout>)
    requires |results| == |loadouts|
    requires forall i :: 0 <= i < |results| ==> results[i] == Ok(loadouts[i])
    ensures Kept(results) == loadouts
  {
    if |results| > 0 {
      KeptAll(results[1..], loadouts[1..]);
      assert [loadouts[0]] + loadouts[1..] == loadouts;
    }
  }

  /** Filtering distributes over concatenation. */
  lemma {:induction false} KeptAppend<T>(xs: seq<Result<T>>, ys: seq<Result<T>>)
    ensures Kept(xs + ys) == Kept(xs) + Kept(ys)
  {
    if |xs| == 0 {
      assert xs + ys == ys;
    } else {
      assert (xs + ys)[1..] == xs[1..] + ys;
      KeptAppend(xs[1..], ys);
    }
  }

  /** A line that failed to decode is left out, and the lines around it are kept, in order. */
  lemma FailureDropped<T>(xs: seq<Result<T>>, e: Error, ys: seq<Result<T>>)
    ensures Kept(xs + [Err(e)] + ys) == Kept(xs) + Kept(ys)
  {
    calc {
      Kept(xs + [Err(e)] + ys);
      { KeptAppend(xs + [Err(e)], ys); }
      Kept(xs + [Err(e)]) + Kept(ys);
      { KeptAppend(xs, [Err(e)]); }
      Kept(xs) + Kept<T>([Err(e)]) + Kept(ys);
      { assert Kept<T>([Err(e)]) == []; }
      Kept(xs) + Kept(ys);
    }
  }

  /**
    * As written, the empty store (what FullSerialize writes for no loadouts)
    * parses to no loadouts yet warns that 1 out of 1 loadouts failed.
    */
  lemma EmptyStoreWarns()
    ensures FullSerialize([]) == Ok("")
    ensures Parse("") == []
    ensures ParseWarning("") == Some((1, 1))
  {
    assert Lines("") == [""];
    assert NonBlank([""]) == [];
  }

  /** The corrected report stays silent for the text of storable loadouts, the empty store included. */
  lemma NoReportForSavedLoadouts(loadouts: seq<Loadout>)
    requires forall i :: 0 <= i < |loadouts| ==> Storable(loadouts[i])
    ensures FullSerialize(loadouts).Ok?
    ensures DropReport(DecodeEach(NonBlank(Lines(FullSerialize(loadouts).value)))).None?
  {
    RoundTrip(loadouts);
    SavedLines(loadouts);
    var results := DecodeEach(NonBlank(Lines(FullSerialize(loadouts).value)));
    assert |results| == |loadouts| == |Kept(results)|;
    KeptShorter(results);
  }
}
