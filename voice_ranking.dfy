/** The voice list: the comparator `updateVoiceList` sorts with
    (script.js:137-142), the options it fills the voice selector with
    (script.js:144-155), and `getSelectedVoice` (script.js:158-161). */
module VoiceRanking {
  import opened Wrappers
  import opened JsStrings

  /** A platform voice, reduced to the two fields the script reads. */
  datatype Voice = Voice(name: string, lang: string)

  /** `+(v.lang === selectedLanguage)`: a boolean taking part in subtraction. */
  function MatchFlag(v: Voice, selected: string): int {
    if v.lang == selected then 1 else 0
  }

  /** The comparator `(a, b) => bMatch - aMatch || a.lang.localeCompare(b.lang)`:
      negative when `a` goes first. It is zero exactly for voices of the same
      language, and voices of the selected language go before the others. */
  function Compare(a: Voice, b: Voice, selected: string): (c: int)
    ensures -1 <= c <= 1
    ensures c == 0 <==> a.lang == b.lang
    ensures a.lang == selected && b.lang != selected ==> c < 0
    ensures a.lang != selected && b.lang != selected ==> (c < 0 <==> LexLess(a.lang, b.lang))
  {
    var d := MatchFlag(b, selected) - MatchFlag(a, selected);
    if d != 0 then d else LocaleCompare(a.lang, b.lang)
  }

  /** Swapping the arguments negates the comparator (the first condition
      ECMAScript puts on a consistent comparator). */
  lemma CompareAntisymmetric(a: Voice, b: Voice, selected: string)
    ensures Compare(a, b, selected) == -Compare(b, a, selected)
  {
    LexLessAsymmetric(a.lang, b.lang);
    LexLessAsymmetric(b.lang, a.lang);
    LexLessTotal(a.lang, b.lang);
  }

  /** "Goes no later than" is transitive (the second condition). */
  lemma CompareTransitive(a: Voice, b: Voice, c: Voice, selected: string)
    requires Compare(a, b, selected) <= 0 && Compare(b, c, selected) <= 0
    ensures Compare(a, c, selected) <= 0
  {
    if a.lang != selected && c.lang != selected && a.lang != c.lang {
      LexLessTransitive(a.lang, b.lang, c.lang);
    }
  }

  /** `a` may be placed before `b` in the sorted list. */
  predicate GoesNoLater(a: Voice, b: Voice, selected: string) {
    Compare(a, b, selected) <= 0
  }

  predicate Sorted(s: seq<Voice>, selected: string) {
    forall i, j :: 0 <= i < j < |s| ==> GoesNoLater(s[i], s[j], selected)
  }

  /** The voices of `s` whose language is `lang`, in their order in `s`. */
  function OfLanguage(s: seq<Voice>, lang: string): (r: seq<Voice>)
    ensures |r| <= |s|
  {
    if s == [] then []
    else if s[0].lang == lang then [s[0]] + OfLanguage(s[1..], lang)
    else OfLanguage(s[1..], lang)
  }

  /** Places `v` before the first voice it may precede. */
  function Insert(v: Voice, t: seq<Voice>, selected: string): (r: seq<Voice>)
    ensures |r| == |t| + 1
  {
    if t == [] then [v]
    else if GoesNoLater(v, t[0], selected) then [v] + t
    else [t[0]] + Insert(v, t[1..], selected)
  }

  /** Inserting adds `v` and keeps every voice of `t`. */
  lemma {:induction false} InsertPermutes(v: Voice, t: seq<Voice>, selected: string)
    ensures multiset(Insert(v, t, selected)) == multiset(t) + multiset{v}
  {
    if t != [] && !GoesNoLater(v, t[0], selected) {
      InsertPermutes(v, t[1..], selected);
      assert t == [t[0]] + t[1..];
    }
  }

  /** `[...voices].sort(comparator)`: the engine's sort is stable, so the
      result is the stable sort of `voices` under the comparator, computed
      here by insertion. */
  function RankVoices(voices: seq<Voice>, selected: string): (r: seq<Voice>)
    ensures |r| == |voices|
  {
    if voices == [] then []
    else
      Insert(voices[0], RankVoices(voices[1..], selected), selected)
  }

  /** The ranked list holds the same voices, as many times each. */
  lemma {:induction false} RankingIsPermutation(voices: seq<Voice>, selected: string)
    ensures multiset(RankVoices(voices, selected)) == multiset(voices)
  {
    if voices != [] {
      RankingIsPermutation(voices[1..], selected);
      InsertPermutes(voices[0], RankVoices(voices[1..], selected), selected);
      assert voices == [voices[0]] + voices[1..];
    }
  }

  lemma {:induction false} InsertSorted(v: Voice, t: seq<Voice>, selected: string)
    requires Sorted(t, selected)
    ensures Sorted(Insert(v, t, selected), selected)
  {
    if t == [] {
    } else if GoesNoLater(v, t[0], selected) {
      forall j | 0 <= j < |t| ensures GoesNoLater(v, t[j], selected) {
        if j > 0 {
          CompareTransitive(v, t[0], t[j], selected);
        }
      }
    } else {
      var rest := Insert(v, t[1..], selected);
      InsertSorted(v, t[1..], selected);
      InsertBelowHead(v, t, selected);
      var r := [t[0]] + rest;
      assert Insert(v, t, selected) == r;
      forall i, j | 0 <= i < j < |r| ensures GoesNoLater(r[i], r[j], selected) {
        if i > 0 {
          assert r[i] == rest[i - 1] && r[j] == rest[j - 1];
        } else {
          assert r[j] == rest[j - 1];
        }
      }
    }
  }

  /** When `v` passes the head of a sorted `t`, that head may precede
      everything `v` is inserted among. */
  lemma InsertBelowHead(v: Voice, t: seq<Voice>, selected: string)
    requires Sorted(t, selected) && t != [] && !GoesNoLater(v, t[0], selected)
    ensures forall x :: x in Insert(v, t[1..], selected) ==> GoesNoLater(t[0], x, selected)
  {
    var rest := Insert(v, t[1..], selected);
    CompareAntisymmetric(v, t[0], selected);
    InsertPermutes(v, t[1..], selected);
    forall x | x in rest ensures GoesNoLater(t[0], x, selected) {
      assert x in multiset(rest);
      if x != v {
        assert x in t[1..];
      }
    }
  }

  /** The ranked list is sorted by the comparator. */
  lemma {:induction false} RankedIsSorted(voices: seq<Voice>, selected: string)
    ensures Sorted(RankVoices(voices, selected), selected)
  {
    if voices != [] {
      RankedIsSorted(voices[1..], selected);
      InsertSorted(voices[0], RankVoices(voices[1..], selected), selected);
    }
  }

  /** `Insert` places `v` after a run of voices of other languages. */
  lemma {:induction false} InsertShape(v: Voice, t: seq<Voice>, selected: string) returns (k: nat)
    ensures k <= |t|
    ensures Insert(v, t, selected) == t[..k] + [v] + t[k..]
    ensures forall i :: 0 <= i < k ==> t[i].lang != v.lang
  {
    if t == [] || GoesNoLater(v, t[0], selected) {
      k := 0;
    } else {
      var k' := InsertShape(v, t[1..], selected);
      k := k' + 1;
      assert t[..k] == [t[0]] + t[1..][..k'] && t[k..] == t[1..][k'..];
    }
  }

  lemma {:induction false} OfLanguageAppend(a: seq<Voice>, b: seq<Voice>, lang: string)
    ensures OfLanguage(a + b, lang) == OfLanguage(a, lang) + OfLanguage(b, lang)
  {
    if a == [] {
      assert a + b == b;
    } else {
      var ab := a + b;
      assert ab[0] == a[0];
      assert ab[1..] == a[1..] + b;
      OfLanguageAppend(a[1..], b, lang);
      if a[0].lang == lang {
        assert OfLanguage(ab, lang) == [a[0]] + OfLanguage(a[1..] + b, lang);
        assert OfLanguage(a, lang) == [a[0]] + OfLanguage(a[1..], lang);
      } else {
        assert OfLanguage(ab, lang) == OfLanguage(a[1..] + b, lang);
        assert OfLanguage(a, lang) == OfLanguage(a[1..], lang);
      }
    }
  }

  lemma {:induction false} OfLanguageNone(a: seq<Voice>, lang: string)
    requires forall i :: 0 <= i < |a| ==> a[i].lang != lang
    ensures OfLanguage(a, lang) == []
  {
    if a != [] {
      OfLanguageNone(a[1..], lang);
    }
  }

  /** Inserting `v` only passes over voices of other languages. */
  lemma OfLanguageInsert(v: Voice, t: seq<Voice>, selected: string, lang: string)
    ensures OfLanguage(Insert(v, t, selected), lang)
            == (if v.lang == lang then [v] else []) + OfLanguage(t, lang)
  {
    var k := InsertShape(v, t, selected);
    var before, after := t[..k], t[k..];
    assert t == before + after;
    OfLanguageAppend(before, after, lang);
    OfLanguageAppend(before, [v] + after, lang);
    assert Insert(v, t, selected) == before + ([v] + after);
    assert ([v] + after)[1..] == after;
    var left, right := OfLanguage(before, lang), OfLanguage(after, lang);
    if v.lang == lang {
      OfLanguageNone(before, lang);
      assert OfLanguage([v] + after, lang) == [v] + right;
      assert left == [];
      assert left + right == right;
    } else {
      assert OfLanguage([v] + after, lang) == right;
    }
  }

  /** Stability: the voices of any one language keep their original
      relative order. */
  lemma {:induction false} RankingIsStable(voices: seq<Voice>, selected: string, lang: string)
    ensures OfLanguage(RankVoices(voices, selected), lang) == OfLanguage(voices, lang)
  {
    if voices != [] {
      RankingIsStable(voices[1..], selected, lang);
      OfLanguageInsert(voices[0], RankVoices(voices[1..], selected), selected, lang);
    }
  }

  /** What the ranking promises: a permutation of the voices, the voices of
      the selected language first and in their original order, everything
      else after them in non-decreasing language order, and equal languages
      kept in their original order. */
  lemma RankingOrder(voices: seq<Voice>, selected: string)
    ensures multiset(RankVoices(voices, selected)) == multiset(voices)
    ensures forall i, j :: 0 <= i < j < |RankVoices(voices, selected)| ==>
              var r := RankVoices(voices, selected);
              r[j].lang == selected ==> r[i].lang == selected
    ensures forall i, j :: 0 <= i < j < |RankVoices(voices, selected)| ==>
              var r := RankVoices(voices, selected);
              (r[i].lang == selected <==> r[j].lang == selected) ==>
              r[i].lang == r[j].lang || LexLess(r[i].lang, r[j].lang)
    ensures OfLanguage(RankVoices(voices, selected), selected) == OfLanguage(voices, selected)
    ensures forall lang :: OfLanguage(RankVoices(voices, selected), lang) == OfLanguage(voices, lang)
  {
    var r := RankVoices(voices, selected);
    RankingIsPermutation(voices, selected);
    RankedIsSorted(voices, selected);
    forall i, j | 0 <= i < j < |r| && (r[i].lang == selected <==> r[j].lang == selected)
      ensures r[i].lang == r[j].lang || LexLess(r[i].lang, r[j].lang)
    {
      assert GoesNoLater(r[i], r[j], selected);
    }
    forall lang ensures OfLanguage(r, lang) == OfLanguage(voices, lang) {
      RankingIsStable(voices, selected, lang);
    }
  }

  lemma {:induction false} OfLanguageMembers(s: seq<Voice>, lang: string, x: Voice)
    ensures x in OfLanguage(s, lang) <==> x in s && x.lang == lang
  {
    if s != [] {
      OfLanguageMembers(s[1..], lang, x);
      assert s == [s[0]] + s[1..];
    }
  }

  /** Any two lists that are sorted by the comparator and keep each
      language's voices in the same order are equal: whatever stable sort
      the engine runs, its result is `RankVoices`. */
  lemma {:induction false} StableSortIsUnique(s1: seq<Voice>, s2: seq<Voice>, selected: string)
    requires Sorted(s1, selected) && Sorted(s2, selected)
    requires forall lang :: OfLanguage(s1, lang) == OfLanguage(s2, lang)
    ensures s1 == s2
  {
    if s1 == [] || s2 == [] {
      var lang := if s1 != [] then s1[0].lang else if s2 != [] then s2[0].lang else "";
      assert OfLanguage(s1, lang) == OfLanguage(s2, lang);
    } else {
      var a, b := s1[0], s2[0];
      if a.lang != b.lang {
        OfLanguageMembers(s2, b.lang, b);
        OfLanguageMembers(s1, b.lang, b);
        OfLanguageMembers(s1, a.lang, a);
        OfLanguageMembers(s2, a.lang, a);
        var i :| 0 <= i < |s1| && s1[i] == b;
        var j :| 0 <= j < |s2| && s2[j] == a;
        assert GoesNoLater(a, b, selected) && GoesNoLater(b, a, selected);
        CompareAntisymmetric(a, b, selected);
        assert false;
      }
      assert OfLanguage(s1, a.lang)[0] == a;
      assert OfLanguage(s2, a.lang)[0] == b;
      assert a == b;
      forall lang ensures OfLanguage(s1[1..], lang) == OfLanguage(s2[1..], lang) {
        var head := if a.lang == lang then [a] else [];
        assert OfLanguage(s1, lang) == head + OfLanguage(s1[1..], lang);
        assert OfLanguage(s2, lang) == head + OfLanguage(s2[1..], lang);
        assert OfLanguage(s1[1..], lang) == OfLanguage(s1, lang)[|head|..];
        assert OfLanguage(s2[1..], lang) == OfLanguage(s2, lang)[|head|..];
      }
      StableSortIsUnique(s1[1..], s2[1..], selected);
      assert s1 == [a] + s1[1..] && s2 == [b] + s2[1..];
    }
  }

  /** `voices.find(voice => voice.name === voiceName)` as an index: the first
      voice with that name. */
  function FindIndex(voices: seq<Voice>, name: string): (r: Option<nat>)
    ensures r.Some? ==> r.value < |voices| && voices[r.value].name == name
    ensures r.Some? ==> forall j :: 0 <= j < r.value ==> voices[j].name != name
    ensures r.None? <==> forall j :: 0 <= j < |voices| ==> voices[j].name != name
  {
    if voices == [] then None
    else if voices[0].name == name then Some(0)
    else
      match FindIndex(voices[1..], name)
      case Some(k) => Some(k + 1)
      case None => None
  }

  /** `getSelectedVoice`: the first voice whose name is the chosen one, or
      nothing when no voice has that name (for instance after the list was
      replaced). */
  function GetSelectedVoice(voices: seq<Voice>, voiceName: string): (r: Option<Voice>)
    ensures r.None? <==> forall v :: v in voices ==> v.name != voiceName
    ensures r.Some? ==> r.value.name == voiceName
    ensures r.Some? ==> exists i :: 0 <= i < |voices| && voices[i] == r.value
                          && forall j :: 0 <= j < i ==> voices[j].name != voiceName
  {
    match FindIndex(voices, voiceName)
    case Some(i) => Some(voices[i])
    case None => None
  }

  /** One `<option>` of the voice selector. */
  datatype VoiceOption = VoiceOption(value: string, text: string, selected: bool)

  /** The single option shown when there are no voices (script.js:145). */
  const NO_VOICES: VoiceOption := VoiceOption("", "No voices available", false)

  /** The option made for `voice` (script.js:150-153). */
  function OptionFor(voice: Voice, selectedLanguage: string): (o: VoiceOption)
    ensures o.value == voice.name
    ensures o.selected <==> voice.lang == selectedLanguage
    ensures |o.text| == |voice.name| + |voice.lang| + 3
  {
    VoiceOption(voice.name, voice.name + " (" + voice.lang + ")", voice.lang == selectedLanguage)
  }

  /** The options appended, in order, for the voices of `ranked`: one per
      voice, made from that voice. */
  function OptionsFor(ranked: seq<Voice>, selectedLanguage: string): (r: seq<VoiceOption>)
    ensures |r| == |ranked|
    ensures forall i :: 0 <= i < |ranked| ==> r[i] == OptionFor(ranked[i], selectedLanguage)
  {
    if ranked == [] then []
    else OptionsFor(ranked[..|ranked| - 1], selectedLanguage) + [OptionFor(ranked[|ranked| - 1], selectedLanguage)]
  }

  /** The options `updateVoiceList` leaves in the voice selector. */
  function VoiceOptions(voices: seq<Voice>, selectedLanguage: string): (r: seq<VoiceOption>)
    ensures |r| == if voices == [] then 1 else |voices|
  {
    var ranked := RankVoices(voices, selectedLanguage);
    if |ranked| == 0 then [NO_VOICES] else OptionsFor(ranked, selectedLanguage)
  }

  /** No voices: only the placeholder. Otherwise one option per voice in
      ranked order, marked selected exactly when its voice is of the
      selected language, and the selected options come first. */
  lemma VoiceOptionsShape(voices: seq<Voice>, selectedLanguage: string)
    ensures voices == [] <==> VoiceOptions(voices, selectedLanguage) == [NO_VOICES]
    ensures voices != [] ==> |VoiceOptions(voices, selectedLanguage)| == |voices|
    ensures voices != [] ==> forall i :: 0 <= i < |voices| ==>
              var o := VoiceOptions(voices, selectedLanguage)[i];
              var v := RankVoices(voices, selectedLanguage)[i];
              o.value == v.name && (o.selected <==> v.lang == selectedLanguage)
    ensures forall i, j :: 0 <= i < j < |VoiceOptions(voices, selectedLanguage)| ==>
              VoiceOptions(voices, selectedLanguage)[j].selected ==>
              VoiceOptions(voices, selectedLanguage)[i].selected
  {
    var ranked := RankVoices(voices, selectedLanguage);
    var r := VoiceOptions(voices, selectedLanguage);
    RankingOrder(voices, selectedLanguage);
    if voices != [] {
      var v := ranked[0];
      assert r[0].value == v.name && r[0].text == v.name + " (" + v.lang + ")";
      assert |r[0].text| > |NO_VOICES.text| || r[0].text != NO_VOICES.text by {
        if |r[0].text| == |NO_VOICES.text| {
          assert r[0].text[|r[0].text| - 1] == ')';
        }
      }
    }
  }
}
