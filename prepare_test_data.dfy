/**
 The pair-preparation step for BIPSPI+: each line of a pairs file names a
 ligand and a receptor PDB identifier joined by `+`. `TranslateIds` turns such
 a token into a filesystem-safe unique name (the uid) plus the four names it is
 built from; `IngestPairs` reads all lines in order, keeping every translation,
 the set of uids seen and the number of lines whose uid was already seen.
 */
module PrepareTestData {
  import opened PyStr

  datatype Option<T> = None | Some(value: T)

  /**
   Why a token cannot be translated: unpacking the fields of `split("+")`
   into two names found `got` fields instead (Python raises `ValueError`).
   */
  datatype TranslateError = UnpackMismatch(got: nat)

  datatype Result<T> = Ok(value: T) | Err(error: TranslateError)

  /** Where ingestion of the pairs file stopped, and why. */
  datatype LineError = LineError(line: nat, error: TranslateError)

  /** The five-tuple `(uid, ligand, receptor, t_ligand, t_receptor)`. */
  datatype Translation = Translation(
    uid: string,
    ligand: string,
    receptor: string,
    tLigand: string,
    tReceptor: string)

  /** `translate_ids`: a token translates exactly when it holds one `+`. */
  function TranslateIds(pair: string): (r: Result<Translation>)
    ensures r.Ok? <==> Count(pair, '+') == 1
    ensures r.Err? ==> r.error.got == Count(pair, '+') + 1 && r.error.got != 2
  {
    var fields := Split(pair, '+');
    if |fields| != 2 then Err(UnpackMismatch(|fields|))
    else
      var ligand, receptor := fields[0], fields[1];
      var tLigand := Replace(ligand, '_', '-');
      var tReceptor := Replace(receptor, '_', '-');
      Ok(Translation(tLigand + "--" + tReceptor, ligand, receptor, tLigand, tReceptor))
  }

  /** The ligand and receptor split the token losslessly at its only `+`. */
  lemma TranslateIdsLossless(pair: string)
    requires TranslateIds(pair).Ok?
    ensures var t := TranslateIds(pair).value;
      && t.ligand + "+" + t.receptor == pair
      && '+' !in t.ligand && '+' !in t.receptor
  {
    var fields := Split(pair, '+');
    JoinSplit(pair, '+');
    SplitFieldsFree(pair, '+');
    assert Join(fields, '+') == fields[0] + ['+'] + fields[1];
  }

  /**
   The translated names are the ligand and receptor with every `_` turned
   into `-`; the uid joins them with `--` and so holds neither `_` nor `+`,
   and is one character longer than the token.
   */
  lemma TranslatedNames(pair: string)
    requires TranslateIds(pair).Ok?
    ensures var t := TranslateIds(pair).value;
      && |t.tLigand| == |t.ligand| && |t.tReceptor| == |t.receptor|
      && (forall i :: 0 <= i < |t.ligand| ==>
            t.tLigand[i] == (if t.ligand[i] == '_' then '-' else t.ligand[i]))
      && (forall i :: 0 <= i < |t.receptor| ==>
            t.tReceptor[i] == (if t.receptor[i] == '_' then '-' else t.receptor[i]))
      && '_' !in t.tLigand && '_' !in t.tReceptor
      && t.uid == t.tLigand + "--" + t.tReceptor
      && '_' !in t.uid && '+' !in t.uid
      && |t.uid| == |pair| + 1
  {
    var t := TranslateIds(pair).value;
    TranslateIdsLossless(pair);
    ReplaceRemoves(t.ligand, '_', '-');
    ReplaceRemoves(t.receptor, '_', '-');
    ReplaceKeepsOthers(t.ligand, '_', '-', '+');
    ReplaceKeepsOthers(t.receptor, '_', '-', '+');
    assert |pair| == |t.ligand| + 1 + |t.receptor|;
  }

  /** Translating the translated names again leaves them unchanged. */
  lemma TranslationIdempotent(pair: string)
    requires TranslateIds(pair).Ok?
    ensures var t := TranslateIds(pair).value;
      && Replace(t.tLigand, '_', '-') == t.tLigand
      && Replace(t.tReceptor, '_', '-') == t.tReceptor
  {
    var t := TranslateIds(pair).value;
    ReplaceIdempotent(t.ligand, '_', '-');
    ReplaceIdempotent(t.receptor, '_', '-');
  }

  /** The converse of losslessness: any two `+`-free names translate as a pair. */
  lemma TranslateIdsOfNames(ligand: string, receptor: string)
    requires '+' !in ligand && '+' !in receptor
    ensures var tl, tr := Replace(ligand, '_', '-'), Replace(receptor, '_', '-');
      TranslateIds(ligand + "+" + receptor) == Ok(Translation(tl + "--" + tr, ligand, receptor, tl, tr))
  {
    SplitJoin([ligand, receptor], '+');
    assert Join([ligand, receptor], '+') == ligand + "+" + receptor;
  }

  /** Two strings that put one separator after a separator-free prefix agree on both sides of it. */
  lemma SplitAtFirst(a: string, b: string, a': string, b': string, c: char)
    requires c !in a && c !in a'
    requires a + [c] + b == a' + [c] + b'
    ensures a == a' && b == b'
  {
    var s := a + [c] + b;
    assert forall k :: 0 <= k < |a| ==> s[k] == a[k] != c;
    assert forall k :: 0 <= k < |a'| ==> s[k] == a'[k] != c;
    assert s[|a|] == c && s[|a'|] == c;
    assert |a| == |a'|;
    assert a == s[..|a|] == a';
    assert b == s[|a| + 1..] == b';
  }

  /**
   Two tokens that differ only by `_` versus `-` both translate or both fail,
   and when they translate they get the same uid.
   */
  lemma SameUidUpToUnderscore(p: string, q: string)
    requires TranslateIds(p).Ok?
    requires Replace(p, '_', '-') == Replace(q, '_', '-')
    ensures TranslateIds(q).Ok?
    ensures TranslateIds(p).value.uid == TranslateIds(q).value.uid
  {
    ReplaceKeepsCount(p, '_', '-', '+');
    ReplaceKeepsCount(q, '_', '-', '+');
    var tp, tq := TranslateIds(p).value, TranslateIds(q).value;
    TranslateIdsLossless(p);
    TranslateIdsLossless(q);
    ReplaceAppend(tp.ligand + "+", tp.receptor, '_', '-');
    ReplaceAppend(tp.ligand, "+", '_', '-');
    ReplaceAppend(tq.ligand + "+", tq.receptor, '_', '-');
    ReplaceAppend(tq.ligand, "+", '_', '-');
    assert Replace("+", '_', '-') == "+";
    ReplaceKeepsOthers(tp.ligand, '_', '-', '+');
    ReplaceKeepsOthers(tq.ligand, '_', '-', '+');
    SplitAtFirst(tp.tLigand, tp.tReceptor, tq.tLigand, tq.tReceptor, '+');
  }

  /**
   On tokens that contain neither `_` nor `-` the uid is injective: the uid
   determines the token.
   */
  lemma UidDeterminesToken(p: string, q: string)
    requires TranslateIds(p).Ok? && TranslateIds(q).Ok?
    requires '_' !in p && '-' !in p && '_' !in q && '-' !in q
    requires TranslateIds(p).value.uid == TranslateIds(q).value.uid
    ensures p == q
  {
    var tp, tq := TranslateIds(p).value, TranslateIds(q).value;
    TranslateIdsLossless(p);
    TranslateIdsLossless(q);
    ReplaceAbsent(tp.ligand, '_', '-');
    ReplaceAbsent(tp.receptor, '_', '-');
    ReplaceAbsent(tq.ligand, '_', '-');
    ReplaceAbsent(tq.receptor, '_', '-');
    assert tp.uid == tp.ligand + ['-'] + ("-" + tp.receptor);
    assert tq.uid == tq.ligand + ['-'] + ("-" + tq.receptor);
    SplitAtFirst(tp.ligand, "-" + tp.receptor, tq.ligand, "-" + tq.receptor, '-');
    assert tp.receptor == ("-" + tp.receptor)[1..];
    assert tq.receptor == ("-" + tq.receptor)[1..];
  }

  /**
   Without that restriction the uid is not injective: moving a `-` from the
   end of the ligand to the start of the receptor gives a different token
   with the same uid (`a-+b` and `a+-b` both become `a---b`).
   */
  lemma UidCollidesAcrossSeparator(ligand: string, receptor: string)
    requires '+' !in ligand && '+' !in receptor
    ensures var p, q := (ligand + "-") + "+" + receptor, ligand + "+" + ("-" + receptor);
      && p != q
      && TranslateIds(p).Ok? && TranslateIds(q).Ok?
      && TranslateIds(p).value.uid == TranslateIds(q).value.uid
  {
    var p, q := (ligand + "-") + "+" + receptor, ligand + "+" + ("-" + receptor);
    var tl, tr := Replace(ligand, '_', '-'), Replace(receptor, '_', '-');
    assert p[|ligand|] == '-' && q[|ligand|] == '+';
    ReplaceAbsent("-", '_', '-');
    ReplaceAppend(ligand, "-", '_', '-');
    ReplaceAppend("-", receptor, '_', '-');
    TranslateIdsOfNames(ligand + "-", receptor);
    TranslateIdsOfNames(ligand, "-" + receptor);
    assert (tl + "-") + "--" + tr == tl + "--" + ("-" + tr);
  }

  // ---------------------------------------------------------------------
  // Ingestion of the pairs file (the first loop of `run`)
  // ---------------------------------------------------------------------

  /** The set of uids after a list of translations, built as the loop builds it. */
  function UidsOf(pairs: seq<Translation>): set<string>
  {
    if |pairs| == 0 then {}
    else UidsOf(pairs[..|pairs| - 1]) + {pairs[|pairs| - 1].uid}
  }

  /** The uids are exactly the first components of the translations. */
  lemma {:induction false} UidsOfMembers(pairs: seq<Translation>)
    ensures forall u :: u in UidsOf(pairs) <==> exists i :: 0 <= i < |pairs| && pairs[i].uid == u
  {
    if |pairs| > 0 {
      var n := |pairs| - 1;
      UidsOfMembers(pairs[..n]);
      assert forall i :: 0 <= i < n ==> pairs[..n][i] == pairs[i];
    }
  }

  /** The loop's test on entry `j`: its uid is already in the set built from the entries before it. */
  predicate SeenBefore(pairs: seq<Translation>, j: nat)
    requires j < |pairs|
  {
    pairs[j].uid in UidsOf(pairs[..j])
  }

  /** An entry is seen before exactly when an earlier entry has the same uid. */
  lemma SeenBeforeIff(pairs: seq<Translation>, j: nat)
    requires j < |pairs|
    ensures SeenBefore(pairs, j) <==> exists i :: 0 <= i < j && pairs[i].uid == pairs[j].uid
  {
    var prefix := pairs[..j];
    UidsOfMembers(prefix);
    if SeenBefore(pairs, j) {
      var i :| 0 <= i < j && prefix[i].uid == pairs[j].uid;
      assert pairs[i].uid == pairs[j].uid;
    }
    if exists i :: 0 <= i < j && pairs[i].uid == pairs[j].uid {
      var i :| 0 <= i < j && pairs[i].uid == pairs[j].uid;
      assert prefix[i].uid == pairs[j].uid;
    }
  }

  /**
   The repeat counter after a list of translations: one for every entry
   whose uid was already in the set built from the entries before it.
   */
  function Repeats(pairs: seq<Translation>): nat
  {
    if |pairs| == 0 then 0
    else Repeats(pairs[..|pairs| - 1]) + (if SeenBefore(pairs, |pairs| - 1) then 1 else 0)
  }

  /** Every entry is either a repeat or adds a new uid. */
  lemma {:induction false} RepeatsPlusUids(pairs: seq<Translation>)
    ensures Repeats(pairs) + |UidsOf(pairs)| == |pairs|
  {
    if |pairs| > 0 {
      var n := |pairs| - 1;
      var prev := UidsOf(pairs[..n]);
      RepeatsPlusUids(pairs[..n]);
      if pairs[n].uid in prev {
        assert prev + {pairs[n].uid} == prev;
      }
    }
  }

  /** No two entries share a uid. */
  predicate DistinctUids(pairs: seq<Translation>)
  {
    forall i, j :: 0 <= i < j < |pairs| ==> pairs[i].uid != pairs[j].uid
  }

  /** The counter stays at zero exactly when no uid occurs twice. */
  lemma {:induction false} RepeatsZeroIffDistinct(pairs: seq<Translation>)
    ensures Repeats(pairs) == 0 <==> DistinctUids(pairs)
  {
    if |pairs| > 0 {
      var n := |pairs| - 1;
      var prefix := pairs[..n];
      RepeatsZeroIffDistinct(prefix);
      SeenBeforeIff(pairs, n);
      assert forall i :: 0 <= i < n ==> prefix[i] == pairs[i];
      if DistinctUids(pairs) {
        assert DistinctUids(prefix);
      }
      if DistinctUids(prefix) && !SeenBefore(pairs, n) {
        forall i, j | 0 <= i < j < |pairs| ensures pairs[i].uid != pairs[j].uid {
          if j < n {
            assert prefix[i].uid != prefix[j].uid;
          }
        }
      }
    }
  }

  /** One line of the pairs file as the loop reads it: `translate_ids(line.strip())`. */
  function ParseLine(line: string): Result<Translation>
  {
    TranslateIds(Strip(line))
  }

  /**
   `pairs` holds the results of `parse` on the first `|pairs|` lines, in
   input order; stated from the back, one entry at a time, as the loop
   appends them. The loop uses it with `parse` set to `ParseLine`.
   */
  predicate Ingested(parse: string -> Result<Translation>, lines: seq<string>, pairs: seq<Translation>)
  {
    && |pairs| <= |lines|
    && (|pairs| > 0 ==>
          && Ingested(parse, lines, pairs[..|pairs| - 1])
          && parse(lines[|pairs| - 1]) == Ok(pairs[|pairs| - 1]))
  }

  /** Entry by entry: `pairs[k]` is the result of `parse` on `lines[k]`. */
  lemma {:induction false} IngestedAt(parse: string -> Result<Translation>, lines: seq<string>, pairs: seq<Translation>)
    requires Ingested(parse, lines, pairs)
    ensures forall k :: 0 <= k < |pairs| ==> parse(lines[k]) == Ok(pairs[k])
  {
    if |pairs| > 0 {
      var n := |pairs| - 1;
      IngestedAt(parse, lines, pairs[..n]);
      assert forall k :: 0 <= k < n ==> pairs[..n][k] == pairs[k];
    }
  }

  /**
   The ingestion loop of `run` over the lines of the pairs file. When a line
   fails to translate, Python raises at that line and `run` stops; the
   method then reports the failing line, and the other results are the
   state the loop had reached.
   */
  method IngestPairs(lines: seq<string>)
    returns (pdbPairs: seq<Translation>, uids: set<string>, rep: nat, failure: Option<LineError>)
    ensures |pdbPairs| <= |lines|
    ensures forall k :: 0 <= k < |pdbPairs| ==> ParseLine(lines[k]) == Ok(pdbPairs[k])
    ensures failure.None? <==> forall k :: 0 <= k < |lines| ==> ParseLine(lines[k]).Ok?
    ensures failure.None? ==> |pdbPairs| == |lines|
    ensures failure.Some? ==>
      && failure.value.line == |pdbPairs| < |lines|
      && ParseLine(lines[|pdbPairs|]) == Err(failure.value.error)
    ensures uids == UidsOf(pdbPairs)
    ensures rep == Repeats(pdbPairs)
    ensures rep + |uids| == |pdbPairs|
  {
    pdbPairs, uids, rep, failure := [], {}, 0, None;
    for i := 0 to |lines|
      invariant |pdbPairs| == i
      invariant Ingested(ParseLine, lines, pdbPairs)
      invariant uids == UidsOf(pdbPairs)
      invariant rep == Repeats(pdbPairs)
    {
      var r := ParseLine(lines[i]);
      if r.Err? {
        failure := Some(LineError(i, r.error));
        IngestedAt(ParseLine, lines, pdbPairs);
        RepeatsPlusUids(pdbPairs);
        return;
      }
      ghost var before := pdbPairs;
      pdbPairs := pdbPairs + [r.value];
      var uid := pdbPairs[|pdbPairs| - 1].uid;
      assert pdbPairs[..i] == before;
      if uid in uids {
        rep := rep + 1;
      }
      uids := uids + {uid};
    }
    IngestedAt(ParseLine, lines, pdbPairs);
    RepeatsPlusUids(pdbPairs);
  }

  /**
   A line that differs from an earlier one only by `_` versus `-` is counted
   as a repeat.
   */
  lemma UnderscoreVariantIsRepeat(lines: seq<string>, pairs: seq<Translation>, i: nat, j: nat)
    requires |pairs| <= |lines|
    requires forall k :: 0 <= k < |pairs| ==> ParseLine(lines[k]) == Ok(pairs[k])
    requires i < j < |pairs|
    requires Replace(Strip(lines[i]), '_', '-') == Replace(Strip(lines[j]), '_', '-')
    ensures SeenBefore(pairs, j)
    ensures Repeats(pairs) >= 1
  {
    SameUidUpToUnderscore(Strip(lines[i]), Strip(lines[j]));
    assert pairs[i].uid == pairs[j].uid;
    SeenBeforeIff(pairs, j);
    RepeatsZeroIffDistinct(pairs);
  }
}
