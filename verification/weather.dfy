/**
 * The weather widget's keyword classifier: a forecast text is lower-cased
 * and matched against keyword groups in a fixed order; the first group that
 * matches picks the icon.
 */
module Weather {

  const Thunderstorm: string := "\U{26C8}\U{FE0F}"
  const Rain: string := "\U{1F327}\U{FE0F}"
  const Cloud: string := "\U{2601}\U{FE0F}"
  const Sun: string := "\U{2600}\U{FE0F}"
  const Clear: string := "\U{1F324}\U{FE0F}"
  const Wind: string := "\U{1F4A8}"
  const Haze: string := "\U{1F636}"
  const Overcast: string := "\U{1F325}\U{FE0F}"

  /** The eight icons the classifier can answer with. */
  const Icons: set<string> := {Thunderstorm, Rain, Cloud, Sun, Clear, Wind, Haze, Overcast}

  predicate IsUpper(c: char)
  {
    'A' <= c <= 'Z'
  }

  /** String.prototype.toLowerCase, on ASCII letters. */
  function Lower(s: string): (r: string)
    ensures |r| == |s|
    ensures forall i :: 0 <= i < |s| ==> !IsUpper(r[i])
    ensures forall i :: 0 <= i < |s| && !IsUpper(s[i]) ==> r[i] == s[i]
    ensures forall i :: 0 <= i < |s| && IsUpper(s[i]) ==> r[i] as int == s[i] as int + 32
  {
    if s == [] then []
    else
      var c := if IsUpper(s[0]) then (s[0] as int + 32) as char else s[0];
      [c] + Lower(s[1..])
  }

  /** Lower-casing twice is lower-casing once. */
  lemma {:induction false} LowerIdempotent(s: string)
    ensures Lower(Lower(s)) == Lower(s)
  {
    var r := Lower(s);
    var rr := Lower(r);
    assert forall i :: 0 <= i < |s| ==> rr[i] == r[i];
  }

  /** `sub` occurs in `s` starting at index `i`. */
  predicate OccursAt(s: string, sub: string, i: nat)
  {
    i + |sub| <= |s| && s[i..i + |sub|] == sub
  }

  /** String.prototype.includes. */
  predicate Contains(s: string, sub: string)
  {
    exists i: nat :: i <= |s| && OccursAt(s, sub, i)
  }

  /** A text that contains a word also contains every prefix of it. */
  lemma ContainsPrefix(s: string, word: string, ext: string)
    requires Contains(s, word + ext)
    ensures Contains(s, word)
  {
    var i: nat :| i <= |s| && OccursAt(s, word + ext, i);
    assert s[i..i + |word|] == (word + ext)[..|word|];
    assert OccursAt(s, word, i);
  }

  /** getWeatherIcon. */
  function WeatherIcon(condition: string): (icon: string)
    ensures icon in Icons
  {
    var c := Lower(condition);
    if Contains(c, "thundery") || Contains(c, "thunder") then Thunderstorm
    else if Contains(c, "shower") || Contains(c, "rain") then Rain
    else if Contains(c, "cloud") || Contains(c, "cloudy") then Cloud
    else if Contains(c, "sunny") || Contains(c, "sun") then Sun
    else if Contains(c, "clear") then Clear
    else if Contains(c, "wind") then Wind
    else if Contains(c, "haze") then Haze
    else Overcast
  }

  /**
   * The icon is decided by the first keyword group that matches, and the
   * longer spellings "thundery", "cloudy" and "sunny" never change the
   * answer: each contains its shorter keyword.
   */
  lemma FirstMatchWins(condition: string)
    ensures var c := Lower(condition); var icon := WeatherIcon(condition);
      && (icon == Thunderstorm <==> Contains(c, "thunder"))
      && (icon == Rain <==> (!Contains(c, "thunder") && (Contains(c, "shower") || Contains(c, "rain"))))
      && (icon == Cloud <==>
            (!Contains(c, "thunder") && !Contains(c, "shower") && !Contains(c, "rain") && Contains(c, "cloud")))
      && (icon == Sun <==>
            (!Contains(c, "thunder") && !Contains(c, "shower") && !Contains(c, "rain") && !Contains(c, "cloud")
             && Contains(c, "sun")))
      && (icon == Clear <==>
            (!Contains(c, "thunder") && !Contains(c, "shower") && !Contains(c, "rain") && !Contains(c, "cloud")
             && !Contains(c, "sun") && Contains(c, "clear")))
      && (icon == Wind <==>
            (!Contains(c, "thunder") && !Contains(c, "shower") && !Contains(c, "rain") && !Contains(c, "cloud")
             && !Contains(c, "sun") && !Contains(c, "clear") && Contains(c, "wind")))
      && (icon == Haze <==>
            (!Contains(c, "thunder") && !Contains(c, "shower") && !Contains(c, "rain") && !Contains(c, "cloud")
             && !Contains(c, "sun") && !Contains(c, "clear") && !Contains(c, "wind") && Contains(c, "haze")))
      && (icon == Overcast <==>
            (!Contains(c, "thunder") && !Contains(c, "shower") && !Contains(c, "rain") && !Contains(c, "cloud")
             && !Contains(c, "sun") && !Contains(c, "clear") && !Contains(c, "wind") && !Contains(c, "haze")))
  {
    var c := Lower(condition);
    if Contains(c, "thundery") {
      assert "thunder" + "y" == "thundery";
      ContainsPrefix(c, "thunder", "y");
    }
    if Contains(c, "cloudy") {
      assert "cloud" + "y" == "cloudy";
      ContainsPrefix(c, "cloud", "y");
    }
    if Contains(c, "sunny") {
      assert "sun" + "ny" == "sunny";
      ContainsPrefix(c, "sun", "ny");
    }
  }

  /** A forecast mentioning both thunder and showers gets the thunderstorm icon. */
  lemma ThunderBeforeShower(condition: string)
    requires Contains(Lower(condition), "thunder") && Contains(Lower(condition), "shower")
    ensures WeatherIcon(condition) == Thunderstorm
  {
  }

  /** "Clear and windy": the clear test comes before the wind test. */
  lemma ClearBeforeWind(condition: string)
    requires var c := Lower(condition);
      && !Contains(c, "thunder") && !Contains(c, "shower") && !Contains(c, "rain")
      && !Contains(c, "cloud") && !Contains(c, "sun")
      && Contains(c, "clear") && Contains(c, "wind")
    ensures WeatherIcon(condition) == Clear
  {
    FirstMatchWins(condition);
  }

  /** The classifier ignores letter case. */
  lemma CaseInsensitive(condition: string)
    ensures WeatherIcon(Lower(condition)) == WeatherIcon(condition)
  {
    LowerIdempotent(condition);
  }
}
