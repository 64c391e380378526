/**
  The voice picker: the constant tables of text-to-speech voices, by gender
  and by narration style, and `pick_voice`, which reads a request string as
  an exact voice name, a gender, or a `style-gender` pair, and otherwise
  falls back to any voice.

  `random.choice` is modelled by a draw: a natural number whose remainder
  modulo the length of the list selects the element. Every element is
  selected by some draw (ChoiceReaches), so the set of voices a request can
  yield is exactly the set of voices its list holds.
 */
module Voices {
  import opened Text

  /** `GOOGLE_TTS_VOICES["female"]`. */
  const FemaleVoices: seq<string> := [
    "Achernar", "Aoede", "Autonoe", "Callirrhoe", "Despina",
    "Erinome", "Gacrux", "Kore", "Laomedeia", "Leda",
    "Pulcherrima", "Sulafat", "Vindemiatrix", "Zephyr"]

  /** `GOOGLE_TTS_VOICES["male"]`. */
  const MaleVoices: seq<string> := [
    "Achird", "Algenib", "Algieba", "Alnilam", "Charon",
    "Enceladus", "Fenrir", "Iapetus", "Orus", "Puck",
    "Rasalgethi", "Sadachbia", "Sadaltager", "Schedar",
    "Umbriel", "Zubenelgenubi"]

  /** The gender words, in the order `pick_voice` lists them. */
  const Genders: seq<string> := ["female", "male"]

  /** `GOOGLE_TTS_VOICES`. */
  const VoicesByGender: map<string, seq<string>> := map["female" := FemaleVoices, "male" := MaleVoices]

  /** `VOICE_STYLES`: for each style, the voices of each gender that suit it. */
  const VoiceStyles: map<string, map<string, seq<string>>> := map[
    "educational" := map[
      "female" := ["Achernar", "Erinome", "Sulafat", "Aoede"],
      "male" := ["Charon", "Rasalgethi", "Sadaltager", "Iapetus"]],
    "casual" := map[
      "female" := ["Callirrhoe", "Vindemiatrix", "Laomedeia", "Zephyr"],
      "male" := ["Zubenelgenubi", "Achird", "Umbriel", "Orus"]],
    "motivational" := map[
      "female" := ["Gacrux", "Despina", "Pulcherrima", "Laomedeia"],
      "male" := ["Puck", "Fenrir", "Sadachbia", "Schedar"]],
    "emotional" := map[
      "female" := ["Sulafat", "Despina", "Gacrux", "Aoede", "Achernar"],
      "male" := ["Algieba", "Enceladus", "Charon"]],
    "storytelling" := map[
      "female" := ["Autonoe", "Pulcherrima", "Erinome", "Kore", "Aoede"],
      "male" := ["Enceladus", "Schedar", "Algenib", "Iapetus"]],
    "youthful" := map[
      "female" := ["Leda", "Kore", "Zephyr", "Callirrhoe"],
      "male" := ["Orus", "Alnilam", "Algenib", "Achird"]]]

  /** `all_voices`: the female voices followed by the male ones. */
  const AllVoices: seq<string> := FemaleVoices + MaleVoices

  /** Every style names both genders, each with at least one voice of that gender. */
  lemma StylesWithinGenders()
    ensures forall s :: s in VoiceStyles ==>
              && VoiceStyles[s].Keys == {"female", "male"}
              && VoiceStyles[s]["female"] != [] && VoiceStyles[s]["male"] != []
              && (forall v :: v in VoiceStyles[s]["female"] ==> v in FemaleVoices)
              && (forall v :: v in VoiceStyles[s]["male"] ==> v in MaleVoices)
  {
  }

  /** `random.choice(xs)` with the draw `k`. */
  function Choice<T>(xs: seq<T>, k: nat): (v: T)
    requires xs != []
    ensures v in xs
  {
    xs[k % |xs|]
  }

  /** Every element of the list is the choice of some draw. */
  lemma ChoiceReaches<T>(xs: seq<T>, v: T)
    requires v in xs
    ensures exists k: nat :: Choice(xs, k) == v
  {
    var i :| 0 <= i < |xs| && xs[i] == v;
    assert i % |xs| == i;
    assert Choice(xs, i) == v;
  }

  /** The `style-gender` reading of a request: both parts of `post_type.lower().split("-")`, when there are two. */
  function StyleGender(postType: string): (r: seq<string>)
    ensures |r| == 2 || r == []
  {
    var parts := SplitOn(Lower(postType), '-');
    if '-' in postType && |parts| == 2 then parts else []
  }

  /** Whether the request names a known style and a gender. */
  predicate IsStyleRequest(postType: string) {
    var sg := StyleGender(postType);
    sg != [] && sg[0] in VoiceStyles && sg[1] in Genders
  }

  /**
    `pick_voice(post_type)`, where `gender` is the draw that picks the
    fallback gender and `voice` the draw that picks the voice. An exact
    voice name comes back unchanged; every answer is a known voice.
   */
  function PickVoice(postType: string, gender: nat, voice: nat): (r: string)
    ensures postType in AllVoices ==> r == postType
    ensures r in AllVoices
  {
    StylesWithinGenders();
    if postType in AllVoices then postType
    else if Lower(postType) in Genders then Choice(VoicesByGender[Lower(postType)], voice)
    else if IsStyleRequest(postType) then
      var sg := StyleGender(postType);
      Choice(VoiceStyles[sg[0]][sg[1]], voice)
    else Choice(VoicesByGender[Choice(Genders, gender)], voice)
  }

  /** A name that lower-cases to `female` or `male` has that length and begins as that word does. */
  predicate LooksLikeGender(n: string) {
    (|n| == 6 && LowerChar(n[0]) == 'f' && LowerChar(n[2]) == 'm') || (|n| == 4 && LowerChar(n[0]) == 'm')
  }

  /** Only strings of that shape lower-case to a gender word. */
  lemma GenderWordShape(n: string)
    ensures Lower(n) in Genders ==> LooksLikeGender(n)
  {
    if Lower(n) == "female" {
      assert LowerChar(n[0]) == Lower(n)[0] && LowerChar(n[2]) == Lower(n)[2];
    } else if Lower(n) == "male" {
      assert LowerChar(n[0]) == Lower(n)[0];
    }
  }

  /** The female names neither look like a gender word nor hold a `-`. */
  lemma FemaleNamesPlain()
    ensures forall n :: n in FemaleVoices ==> !LooksLikeGender(n) && '-' !in n
  {
  }

  /** The male names neither look like a gender word nor hold a `-`. */
  lemma MaleNamesPlain()
    ensures forall n :: n in MaleVoices ==> !LooksLikeGender(n) && '-' !in n
  {
  }

  /** No voice name reads as a gender word or holds a `-`, so the exact-name case hides no other request. */
  lemma NamesAreNotRequests()
    ensures forall n :: n in AllVoices ==> Lower(n) !in Genders && '-' !in n
  {
    FemaleNamesPlain();
    MaleNamesPlain();
    forall n | n in AllVoices ensures Lower(n) !in Genders {
      GenderWordShape(n);
    }
  }

  /**
    `female` or `male`, in any case, yields a voice of that gender, and
    every voice of that gender is the answer for some draw.
   */
  lemma PickGender(postType: string, gender: nat, voice: nat)
    requires Lower(postType) in Genders
    ensures PickVoice(postType, gender, voice) in VoicesByGender[Lower(postType)]
    ensures forall v :: v in VoicesByGender[Lower(postType)] ==> exists k: nat :: PickVoice(postType, gender, k) == v
  {
    NamesAreNotRequests();
    var voices := VoicesByGender[Lower(postType)];
    forall v | v in voices ensures exists k: nat :: PickVoice(postType, gender, k) == v {
      ChoiceReaches(voices, v);
      var k: nat :| Choice(voices, k) == v;
      assert PickVoice(postType, gender, k) == v;
    }
  }

  /** A `style-gender` request is answered from that style's list for that gender. */
  lemma StyleBranch(postType: string, gender: nat, voice: nat)
    requires IsStyleRequest(postType)
    ensures var sg := StyleGender(postType);
            sg[0] in VoiceStyles && sg[1] in VoiceStyles[sg[0]] && VoiceStyles[sg[0]][sg[1]] != [] &&
            PickVoice(postType, gender, voice) == Choice(VoiceStyles[sg[0]][sg[1]], voice)
  {
    NamesAreNotRequests();
    StylesWithinGenders();
    assert '-' in Lower(postType) by { LowerKeepsDash(postType); }
    assert '-' !in "female" && '-' !in "male";
  }

  /**
    A known style and gender joined by one `-`, in any case, yields a voice
    listed for that style and gender, hence one of that gender; every
    voice listed there is the answer for some draw.
   */
  lemma PickStyle(postType: string, gender: nat, voice: nat)
    requires IsStyleRequest(postType)
    ensures var sg := StyleGender(postType);
            && PickVoice(postType, gender, voice) in VoiceStyles[sg[0]][sg[1]]
            && PickVoice(postType, gender, voice) in VoicesByGender[sg[1]]
            && forall v :: v in VoiceStyles[sg[0]][sg[1]] ==> exists k: nat :: PickVoice(postType, gender, k) == v
  {
    StylesWithinGenders();
    var sg := StyleGender(postType);
    StyleBranch(postType, gender, voice);
    var voices := VoiceStyles[sg[0]][sg[1]];
    forall v | v in voices ensures exists k: nat :: PickVoice(postType, gender, k) == v {
      ChoiceReaches(voices, v);
      var k: nat :| Choice(voices, k) == v;
      StyleBranch(postType, gender, k);
    }
  }

  /**
    Any other request (no voice name, no gender word, no known
    `style-gender` pair, including inputs with three or more parts) yields
    a voice of the gender the first draw picks, and every voice is the
    answer for some pair of draws.
   */
  lemma PickFallback(postType: string, gender: nat, voice: nat)
    requires postType !in AllVoices && Lower(postType) !in Genders && !IsStyleRequest(postType)
    ensures PickVoice(postType, gender, voice) in VoicesByGender[Choice(Genders, gender)]
    ensures forall v :: v in AllVoices ==> exists g: nat, k: nat :: PickVoice(postType, g, k) == v
  {
    forall v | v in AllVoices ensures exists g: nat, k: nat :: PickVoice(postType, g, k) == v {
      var g: nat := if v in FemaleVoices then 0 else 1;
      var voices := VoicesByGender[Choice(Genders, g)];
      assert v in voices;
      ChoiceReaches(voices, v);
      var k: nat :| Choice(voices, k) == v;
      assert PickVoice(postType, g, k) == v;
    }
  }

  /** `lower()` keeps the `-`s of a string and makes none. */
  lemma LowerKeepsDash(s: string)
    ensures '-' in Lower(s) <==> '-' in s
  {
    if '-' in s {
      var i :| 0 <= i < |s| && s[i] == '-';
      assert Lower(s)[i] == '-';
    }
    if '-' in Lower(s) {
      var i :| 0 <= i < |Lower(s)| && Lower(s)[i] == '-';
      assert s[i] == '-';
    }
  }

  /** Apart from exact voice names, requests are read without regard to case. */
  lemma CaseInsensitive(p: string, q: string, gender: nat, voice: nat)
    requires p !in AllVoices && q !in AllVoices && Lower(p) == Lower(q)
    ensures PickVoice(p, gender, voice) == PickVoice(q, gender, voice)
  {
    LowerKeepsDash(p);
    LowerKeepsDash(q);
  }

  /** Whether a string has no capital letter and no `-`. */
  predicate PlainWord(s: string) {
    forall i :: 0 <= i < |s| ==> !('A' <= s[i] <= 'Z') && s[i] != '-'
  }

  /** The style names and the gender words are plain lower-case words. */
  lemma KeysArePlain()
    ensures forall s :: s in VoiceStyles ==> PlainWord(s)
    ensures forall g :: g in Genders ==> PlainWord(g)
  {
  }

  /** `style + "-" + gender` reads as that style and gender. */
  lemma StyleRequestOf(style: string, g: string)
    requires style in VoiceStyles && g in Genders
    ensures StyleGender(style + "-" + g) == [style, g]
    ensures IsStyleRequest(style + "-" + g)
  {
    KeysArePlain();
    var p := style + "-" + g;
    assert p[|style|] == '-';
    assert forall i :: 0 <= i < |p| ==> !('A' <= p[i] <= 'Z') by {
      forall i | 0 <= i < |p| ensures !('A' <= p[i] <= 'Z') {
        if i < |style| { assert p[i] == style[i]; }
        else if i > |style| { assert p[i] == g[i - |style| - 1]; }
      }
    }
    LowerOfLowercase(p);
    assert JoinWith([style, g], "-") == p;
    SplitOfJoin([style, g], '-');
  }

  /** The documented example `pick_voice("educational-female")`: a female educational voice. */
  lemma ExampleEducationalFemale(gender: nat, voice: nat)
    ensures PickVoice("educational-female", gender, voice) in ["Achernar", "Erinome", "Sulafat", "Aoede"]
  {
    StyleRequestOf("educational", "female");
    assert "educational" + "-" + "female" == "educational-female";
    PickStyle("educational-female", gender, voice);
  }

  /** The documented example `pick_voice("motivational-male")`: a male motivational voice. */
  lemma ExampleMotivationalMale(gender: nat, voice: nat)
    ensures PickVoice("motivational-male", gender, voice) in ["Puck", "Fenrir", "Sadachbia", "Schedar"]
  {
    StyleRequestOf("motivational", "male");
    assert "motivational" + "-" + "male" == "motivational-male";
    PickStyle("motivational-male", gender, voice);
  }

  /** The documented example `pick_voice("female")`: any female voice. */
  lemma ExampleFemale(gender: nat, voice: nat)
    ensures PickVoice("female", gender, voice) in FemaleVoices
  {
    LowerOfLowercase("female");
    assert Lower("female") in Genders;
    PickGender("female", gender, voice);
  }
}
