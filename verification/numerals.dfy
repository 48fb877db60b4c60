/** Number words: Hungarian ordinals (`int_to_text_hun`, `text_to_int_hun`)
    and Roman numerals (`int_to_text_roman`). */
module Numerals {
  import opened Wrappers
  import opened Text

  // ---------------------------------------------------------------------
  // Hungarian ordinals.
  //
  // The source builds its two dictionaries lazily: every value tens + ones
  // (tens 0..90, ones 1..9) gets the word tens-prefix + ones-suffix
  // ("tizen" + "egyedik"), and the irregular words for 1, 2, 10, 20, ..., 100
  // ("első", "második", "tizedik", ..., "századik") are added on top. The
  // tables below are those dictionaries written out: the words for 1..100.

  /** The table, by tens and then by units. */
  /** The word for `1 <= i <= 100`, arranged by tens and then units. */
  function OrdinalWord(i: int): string
    requires 1 <= i <= 100
  {
    if i == 100 then "századik"
    else
      match i / 10
      case 0 =>
        (match i % 10
         case 1 => "első"
         case 2 => "második"
         case 3 => "harmadik"
         case 4 => "negyedik"
         case 5 => "ötödik"
         case 6 => "hatodik"
         case 7 => "hetedik"
         case 8 => "nyolcadik"
         case _ => "kilencedik")
      case 1 =>
        (match i % 10
         case 0 => "tizedik"
         case 1 => "tizenegyedik"
         case 2 => "tizenkettedik"
         case 3 => "tizenharmadik"
         case 4 => "tizennegyedik"
         case 5 => "tizenötödik"
         case 6 => "tizenhatodik"
         case 7 => "tizenhetedik"
         case 8 => "tizennyolcadik"
         case _ => "tizenkilencedik")
      case 2 =>
        (match i % 10
         case 0 => "huszadik"
         case 1 => "huszonegyedik"
         case 2 => "huszonkettedik"
         case 3 => "huszonharmadik"
         case 4 => "huszonnegyedik"
         case 5 => "huszonötödik"
         case 6 => "huszonhatodik"
         case 7 => "huszonhetedik"
         case 8 => "huszonnyolcadik"
         case _ => "huszonkilencedik")
      case 3 =>
        (match i % 10
         case 0 => "harmincadik"
         case 1 => "harmincegyedik"
         case 2 => "harminckettedik"
         case 3 => "harmincharmadik"
         case 4 => "harmincnegyedik"
         case 5 => "harmincötödik"
         case 6 => "harminchatodik"
         case 7 => "harminchetedik"
         case 8 => "harmincnyolcadik"
         case _ => "harminckilencedik")
      case 4 =>
        (match i % 10
         case 0 => "negyvenedik"
         case 1 => "negyvenegyedik"
         case 2 => "negyvenkettedik"
         case 3 => "negyvenharmadik"
         case 4 => "negyvennegyedik"
         case 5 => "negyvenötödik"
         case 6 => "negyvenhatodik"
         case 7 => "negyvenhetedik"
         case 8 => "negyvennyolcadik"
         case _ => "negyvenkilencedik")
      case 5 =>
        (match i % 10
         case 0 => "ötvenedik"
         case 1 => "ötvenegyedik"
         case 2 => "ötvenkettedik"
         case 3 => "ötvenharmadik"
         case 4 => "ötvennegyedik"
         case 5 => "ötvenötödik"
         case 6 => "ötvenhatodik"
         case 7 => "ötvenhetedik"
         case 8 => "ötvennyolcadik"
         case _ => "ötvenkilencedik")
      case 6 =>
        (match i % 10
         case 0 => "hatvanadik"
         case 1 => "hatvanegyedik"
         case 2 => "hatvankettedik"
         case 3 => "hatvanharmadik"
         case 4 => "hatvannegyedik"
         case 5 => "hatvanötödik"
         case 6 => "hatvanhatodik"
         case 7 => "hatvanhetedik"
         case 8 => "hatvannyolcadik"
         case _ => "hatvankilencedik")
      case 7 =>
        (match i % 10
         case 0 => "hetvenedik"
         case 1 => "hetvenegyedik"
         case 2 => "hetvenkettedik"
         case 3 => "hetvenharmadik"
         case 4 => "hetvennegyedik"
         case 5 => "hetvenötödik"
         case 6 => "hetvenhatodik"
         case 7 => "hetvenhetedik"
         case 8 => "hetvennyolcadik"
         case _ => "hetvenkilencedik")
      case 8 =>
        (match i % 10
         case 0 => "nyolcvanadik"
         case 1 => "nyolcvanegyedik"
         case 2 => "nyolcvankettedik"
         case 3 => "nyolcvanharmadik"
         case 4 => "nyolcvannegyedik"
         case 5 => "nyolcvanötödik"
         case 6 => "nyolcvanhatodik"
         case 7 => "nyolcvanhetedik"
         case 8 => "nyolcvannyolcadik"
         case _ => "nyolcvankilencedik")
      case _ =>
        (match i % 10
         case 0 => "kilencvenedik"
         case 1 => "kilencvenegyedik"
         case 2 => "kilencvenkettedik"
         case 3 => "kilencvenharmadik"
         case 4 => "kilencvennegyedik"
         case 5 => "kilencvenötödik"
         case 6 => "kilencvenhatodik"
         case 7 => "kilencvenhetedik"
         case 8 => "kilencvennyolcadik"
         case _ => "kilencvenkilencedik")
  }

  /** The inverse table, searched by word length, then first letter; 0
      when the word is not there. */
  function OrdinalLookup(w: string): int {
    match |w|
    case 4 =>
      (match w
       case "első" => 1
       case _ => 0)
    case 6 =>
      (match w
       case "ötödik" => 5
       case _ => 0)
    case 7 =>
      (match w[0]
       case 'h' =>
         (match w
          case "hatodik" => 6
          case "hetedik" => 7
          case _ => 0)
       case 'm' =>
         (match w
          case "második" => 2
          case _ => 0)
       case 't' =>
         (match w
          case "tizedik" => 10
          case _ => 0)
       case _ => 0)
    case 8 =>
      (match w[0]
       case 'h' =>
         (match w
          case "harmadik" => 3
          case "huszadik" => 20
          case _ => 0)
       case 'n' =>
         (match w
          case "negyedik" => 4
          case _ => 0)
       case 's' =>
         (match w
          case "századik" => 100
          case _ => 0)
       case _ => 0)
    case 9 =>
      (match w[0]
       case 'n' =>
         (match w
          case "nyolcadik" => 8
          case _ => 0)
       case 'ö' =>
         (match w
          case "ötvenedik" => 50
          case _ => 0)
       case _ => 0)
    case 10 =>
      (match w[0]
       case 'h' =>
         (match w
          case "hatvanadik" => 60
          case "hetvenedik" => 70
          case _ => 0)
       case 'k' =>
         (match w
          case "kilencedik" => 9
          case _ => 0)
       case _ => 0)
    case 11 =>
      (match w[0]
       case 'h' =>
         (match w
          case "harmincadik" => 30
          case _ => 0)
       case 'n' =>
         (match w
          case "negyvenedik" => 40
          case _ => 0)
       case 't' =>
         (match w
          case "tizenötödik" => 15
          case _ => 0)
       case 'ö' =>
         (match w
          case "ötvenötödik" => 55
          case _ => 0)
       case _ => 0)
    case 12 =>
      (match w[0]
       case 'h' =>
         (match w
          case "huszonötödik" => 25
          case "hatvanötödik" => 65
          case "hetvenötödik" => 75
          case _ => 0)
       case 'n' =>
         (match w
          case "nyolcvanadik" => 80
          case _ => 0)
       case 't' =>
         (match w
          case "tizenegyedik" => 11
          case "tizenhatodik" => 16
          case "tizenhetedik" => 17
          case _ => 0)
       case 'ö' =>
         (match w
          case "ötvenegyedik" => 51
          case "ötvenhatodik" => 56
          case "ötvenhetedik" => 57
          case _ => 0)
       case _ => 0)
    case 13 =>
      (match w[0]
       case 'h' =>
         (match w
          case "huszonegyedik" => 21
          case "huszonhatodik" => 26
          case "huszonhetedik" => 27
          case "harmincötödik" => 35
          case "hatvanegyedik" => 61
          case "hatvanhatodik" => 66
          case "hatvanhetedik" => 67
          case "hetvenegyedik" => 71
          case "hetvenhatodik" => 76
          case "hetvenhetedik" => 77
          case _ => 0)
       case 'k' =>
         (match w
          case "kilencvenedik" => 90
          case _ => 0)
       case 'n' =>
         (match w
          case "negyvenötödik" => 45
          case _ => 0)
       case 't' =>
         (match w
          case "tizenkettedik" => 12
          case "tizenharmadik" => 13
          case "tizennegyedik" => 14
          case _ => 0)
       case 'ö' =>
         (match w
          case "ötvenkettedik" => 52
          case "ötvenharmadik" => 53
          case "ötvennegyedik" => 54
          case _ => 0)
       case _ => 0)
    case 14 =>
      (match w[0]
       case 'h' =>
         (match w
          case "huszonkettedik" => 22
          case "huszonharmadik" => 23
          case "huszonnegyedik" => 24
          case "harmincegyedik" => 31
          case "harminchatodik" => 36
          case "harminchetedik" => 37
          case "hatvankettedik" => 62
          case "hatvanharmadik" => 63
          case "hatvannegyedik" => 64
          case "hetvenkettedik" => 72
          case "hetvenharmadik" => 73
          case "hetvennegyedik" => 74
          case _ => 0)
       case 'n' =>
         (match w
          case "negyvenegyedik" => 41
          case "negyvenhatodik" => 46
          case "negyvenhetedik" => 47
          case "nyolcvanötödik" => 85
          case _ => 0)
       case 't' =>
         (match w
          case "tizennyolcadik" => 18
          case _ => 0)
       case 'ö' =>
         (match w
          case "ötvennyolcadik" => 58
          case _ => 0)
       case _ => 0)
    case 15 =>
      (match w[0]
       case 'h' =>
         (match w
          case "huszonnyolcadik" => 28
          case "harminckettedik" => 32
          case "harmincharmadik" => 33
          case "harmincnegyedik" => 34
          case "hatvannyolcadik" => 68
          case "hetvennyolcadik" => 78
          case _ => 0)
       case 'k' =>
         (match w
          case "kilencvenötödik" => 95
          case _ => 0)
       case 'n' =>
         (match w
          case "negyvenkettedik" => 42
          case "negyvenharmadik" => 43
          case "negyvennegyedik" => 44
          case "nyolcvanegyedik" => 81
          case "nyolcvanhatodik" => 86
          case "nyolcvanhetedik" => 87
          case _ => 0)
       case 't' =>
         (match w
          case "tizenkilencedik" => 19
          case _ => 0)
       case 'ö' =>
         (match w
          case "ötvenkilencedik" => 59
          case _ => 0)
       case _ => 0)
    case 16 =>
      (match w[0]
       case 'h' =>
         (match w
          case "huszonkilencedik" => 29
          case "harmincnyolcadik" => 38
          case "hatvankilencedik" => 69
          case "hetvenkilencedik" => 79
          case _ => 0)
       case 'k' =>
         (match w
          case "kilencvenegyedik" => 91
          case "kilencvenhatodik" => 96
          case "kilencvenhetedik" => 97
          case _ => 0)
       case 'n' =>
         (match w
          case "negyvennyolcadik" => 48
          case "nyolcvankettedik" => 82
          case "nyolcvanharmadik" => 83
          case "nyolcvannegyedik" => 84
          case _ => 0)
       case _ => 0)
    case 17 =>
      (match w[0]
       case 'h' =>
         (match w
          case "harminckilencedik" => 39
          case _ => 0)
       case 'k' =>
         (match w
          case "kilencvenkettedik" => 92
          case "kilencvenharmadik" => 93
          case "kilencvennegyedik" => 94
          case _ => 0)
       case 'n' =>
         (match w
          case "negyvenkilencedik" => 49
          case "nyolcvannyolcadik" => 88
          case _ => 0)
       case _ => 0)
    case 18 =>
      (match w[0]
       case 'k' =>
         (match w
          case "kilencvennyolcadik" => 98
          case _ => 0)
       case 'n' =>
         (match w
          case "nyolcvankilencedik" => 89
          case _ => 0)
       case _ => 0)
    case 19 =>
      (match w
       case "kilencvenkilencedik" => 99
       case _ => 0)
    case _ => 0
  }

  /** `int_to_text_hun`: the ordinal word for 1..100, ValueError otherwise. */
  function IntToTextHun(i: int): (r: Result<string>)
    ensures r.Ok? <==> 1 <= i <= 100
    ensures r.Err? ==> r.error == ValueError
  {
    if 1 <= i <= 100 then Ok(OrdinalWord(i)) else Err(ValueError)
  }

  /** `text_to_int_hun`: looks the lower-cased word up, ValueError when it is
      not an ordinal. A hit is checked against the forward table, so a
      successful lookup always yields a number whose word is the lower-cased
      input. */
  function TextToIntHun(s: string): (r: Result<int>)
    ensures r.Ok? ==> 1 <= r.value <= 100 && IntToTextHun(r.value) == Ok(Lower(s))
    ensures r.Err? ==> r.error == ValueError
  {
    var w := Lower(s);
    var i := OrdinalLookup(w);
    if 1 <= i <= 100 && OrdinalWord(i) == w then Ok(i) else Err(ValueError)
  }

  // The table facts behind the round trip, checked a few entries at a time.

  lemma OrdinalTable1To4(i: int)
    requires 1 <= i <= 4
    ensures OrdinalLookup(OrdinalWord(i)) == i
    ensures Lower(OrdinalWord(i)) == OrdinalWord(i)
  {
    var w := OrdinalWord(i);
    forall k | 0 <= k < |w|
      ensures LowerChar(w[k]) == w[k]
    {
    }
  }

  lemma OrdinalTable5To9(i: int)
    requires 5 <= i <= 9
    ensures OrdinalLookup(OrdinalWord(i)) == i
    ensures Lower(OrdinalWord(i)) == OrdinalWord(i)
  {
    var w := OrdinalWord(i);
    forall k | 0 <= k < |w|
      ensures LowerChar(w[k]) == w[k]
    {
    }
  }

  lemma OrdinalTable10To14(i: int)
    requires 10 <= i <= 14
    ensures OrdinalLookup(OrdinalWord(i)) == i
    ensures Lower(OrdinalWord(i)) == OrdinalWord(i)
  {
    var w := OrdinalWord(i);
    forall k | 0 <= k < |w|
      ensures LowerChar(w[k]) == w[k]
    {
    }
  }

  lemma OrdinalTable15To19(i: int)
    requires 15 <= i <= 19
    ensures OrdinalLookup(OrdinalWord(i)) == i
    ensures Lower(OrdinalWord(i)) == OrdinalWord(i)
  {
    var w := OrdinalWord(i);
    forall k | 0 <= k < |w|
      ensures LowerChar(w[k]) == w[k]
    {
    }
  }

  lemma OrdinalTable20To24(i: int)
    requires 20 <= i <= 24
    ensures OrdinalLookup(OrdinalWord(i)) == i
    ensures Lower(OrdinalWord(i)) == OrdinalWord(i)
  {
    var w := OrdinalWord(i);
    forall k | 0 <= k < |w|
      ensures LowerChar(w[k]) == w[k]
    {
    }
  }

  lemma OrdinalTable25To29(i: int)
    requires 25 <= i <= 29
    ensures OrdinalLookup(OrdinalWord(i)) == i
    ensures Lower(OrdinalWord(i)) == OrdinalWord(i)
  {
    var w := OrdinalWord(i);
    forall k | 0 <= k < |w|
      ensures LowerChar(w[k]) == w[k]
    {
    }
  }

  lemma OrdinalTable30To34(i: int)
    requires 30 <= i <= 34
    ensures OrdinalLookup(OrdinalWord(i)) == i
    ensures Lower(OrdinalWord(i)) == OrdinalWord(i)
  {
    var w := OrdinalWord(i);
    forall k | 0 <= k < |w|
      ensures LowerChar(w[k]) == w[k]
    {
    }
  }

  lemma OrdinalTable35To39(i: int)
    requires 35 <= i <= 39
    ensures OrdinalLookup(OrdinalWord(i)) == i
    ensures Lower(OrdinalWord(i)) == OrdinalWord(i)
  {
    var w := OrdinalWord(i);
    forall k | 0 <= k < |w|
      ensures LowerChar(w[k]) == w[k]
    {
    }
  }

  lemma OrdinalTable40To44(i: int)
    requires 40 <= i <= 44
    ensures OrdinalLookup(OrdinalWord(i)) == i
    ensures Lower(OrdinalWord(i)) == OrdinalWord(i)
  {
    var w := OrdinalWord(i);
    forall k | 0 <= k < |w|
      ensures LowerChar(w[k]) == w[k]
    {
    }
  }

  lemma OrdinalTable45To49(i: int)
    requires 45 <= i <= 49
    ensures OrdinalLookup(OrdinalWord(i)) == i
    ensures Lower(OrdinalWord(i)) == OrdinalWord(i)
  {
    var w := OrdinalWord(i);
    forall k | 0 <= k < |w|
      ensures LowerChar(w[k]) == w[k]
    {
    }
  }

  lemma OrdinalTable50To54(i: int)
    requires 50 <= i <= 54
    ensures OrdinalLookup(OrdinalWord(i)) == i
    ensures Lower(OrdinalWord(i)) == OrdinalWord(i)
  {
    var w := OrdinalWord(i);
    forall k | 0 <= k < |w|
      ensures LowerChar(w[k]) == w[k]
    {
    }
  }

  lemma OrdinalTable55To59(i: int)
    requires 55 <= i <= 59
    ensures OrdinalLookup(OrdinalWord(i)) == i
    ensures Lower(OrdinalWord(i)) == OrdinalWord(i)
  {
    var w := OrdinalWord(i);
    forall k | 0 <= k < |w|
      ensures LowerChar(w[k]) == w[k]
    {
    }
  }

  lemma OrdinalTable60To64(i: int)
    requires 60 <= i <= 64
    ensures OrdinalLookup(OrdinalWord(i)) == i
    ensures Lower(OrdinalWord(i)) == OrdinalWord(i)
  {
    var w := OrdinalWord(i);
    forall k | 0 <= k < |w|
      ensures LowerChar(w[k]) == w[k]
    {
    }
  }

  lemma OrdinalTable65To69(i: int)
    requires 65 <= i <= 69
    ensures OrdinalLookup(OrdinalWord(i)) == i
    ensures Lower(OrdinalWord(i)) == OrdinalWord(i)
  {
    var w := OrdinalWord(i);
    forall k | 0 <= k < |w|
      ensures LowerChar(w[k]) == w[k]
    {
    }
  }

  lemma OrdinalTable70To72(i: int)
    requires 70 <= i <= 72
    ensures OrdinalLookup(OrdinalWord(i)) == i
    ensures Lower(OrdinalWord(i)) == OrdinalWord(i)
  {
    var w := OrdinalWord(i);
    forall k | 0 <= k < |w|
      ensures LowerChar(w[k]) == w[k]
    {
    }
  }

  lemma OrdinalTable73To74(i: int)
    requires 73 <= i <= 74
    ensures OrdinalLookup(OrdinalWord(i)) == i
    ensures Lower(OrdinalWord(i)) == OrdinalWord(i)
  {
    var w := OrdinalWord(i);
    forall k | 0 <= k < |w|
      ensures LowerChar(w[k]) == w[k]
    {
    }
  }

  lemma OrdinalTable75To79(i: int)
    requires 75 <= i <= 79
    ensures OrdinalLookup(OrdinalWord(i)) == i
    ensures Lower(OrdinalWord(i)) == OrdinalWord(i)
  {
    var w := OrdinalWord(i);
    forall k | 0 <= k < |w|
      ensures LowerChar(w[k]) == w[k]
    {
    }
  }

  lemma OrdinalTable80To84(i: int)
    requires 80 <= i <= 84
    ensures OrdinalLookup(OrdinalWord(i)) == i
    ensures Lower(OrdinalWord(i)) == OrdinalWord(i)
  {
    var w := OrdinalWord(i);
    forall k | 0 <= k < |w|
      ensures LowerChar(w[k]) == w[k]
    {
    }
  }

  lemma OrdinalTable85To89(i: int)
    requires 85 <= i <= 89
    ensures OrdinalLookup(OrdinalWord(i)) == i
    ensures Lower(OrdinalWord(i)) == OrdinalWord(i)
  {
    var w := OrdinalWord(i);
    forall k | 0 <= k < |w|
      ensures LowerChar(w[k]) == w[k]
    {
    }
  }

  lemma OrdinalTable90To94(i: int)
    requires 90 <= i <= 94
    ensures OrdinalLookup(OrdinalWord(i)) == i
    ensures Lower(OrdinalWord(i)) == OrdinalWord(i)
  {
    var w := OrdinalWord(i);
    forall k | 0 <= k < |w|
      ensures LowerChar(w[k]) == w[k]
    {
    }
  }

  lemma OrdinalTable95To97(i: int)
    requires 95 <= i <= 97
    ensures OrdinalLookup(OrdinalWord(i)) == i
    ensures Lower(OrdinalWord(i)) == OrdinalWord(i)
  {
    var w := OrdinalWord(i);
    forall k | 0 <= k < |w|
      ensures LowerChar(w[k]) == w[k]
    {
    }
  }

  lemma OrdinalTable98To100(i: int)
    requires 98 <= i <= 100
    ensures OrdinalLookup(OrdinalWord(i)) == i
    ensures Lower(OrdinalWord(i)) == OrdinalWord(i)
  {
    var w := OrdinalWord(i);
    forall k | 0 <= k < |w|
      ensures LowerChar(w[k]) == w[k]
    {
    }
  }

  /** Every number 1..100 survives the trip to its word and back, also
      through the case-insensitive lookup. */
  lemma IntToTextHunRoundTrip(i: int)
    requires 1 <= i <= 100
    ensures IntToTextHun(i).Ok? && TextToIntHun(IntToTextHun(i).value) == Ok(i)
  {
    if i <= 4 { OrdinalTable1To4(i); }
    else if i <= 9 { OrdinalTable5To9(i); }
    else if i <= 14 { OrdinalTable10To14(i); }
    else if i <= 19 { OrdinalTable15To19(i); }
    else if i <= 24 { OrdinalTable20To24(i); }
    else if i <= 29 { OrdinalTable25To29(i); }
    else if i <= 34 { OrdinalTable30To34(i); }
    else if i <= 39 { OrdinalTable35To39(i); }
    else if i <= 44 { OrdinalTable40To44(i); }
    else if i <= 49 { OrdinalTable45To49(i); }
    else if i <= 54 { OrdinalTable50To54(i); }
    else if i <= 59 { OrdinalTable55To59(i); }
    else if i <= 64 { OrdinalTable60To64(i); }
    else if i <= 69 { OrdinalTable65To69(i); }
    else if i <= 72 { OrdinalTable70To72(i); }
    else if i <= 74 { OrdinalTable73To74(i); }
    else if i <= 79 { OrdinalTable75To79(i); }
    else if i <= 84 { OrdinalTable80To84(i); }
    else if i <= 89 { OrdinalTable85To89(i); }
    else if i <= 94 { OrdinalTable90To94(i); }
    else if i <= 97 { OrdinalTable95To97(i); }
    else { OrdinalTable98To100(i); }
  }

  // ---------------------------------------------------------------------
  // Roman numerals.

  /** The numeral table of `int_to_text_roman`, largest value first:
      M CM D CD C XC L XL X IX V IV I. */
  const RomanEntries := 13

  function EntryText(k: nat): string
    requires k < RomanEntries
  {
    match k
    case 0 => "M" case 1 => "CM" case 2 => "D" case 3 => "CD"
    case 4 => "C" case 5 => "XC" case 6 => "L" case 7 => "XL"
    case 8 => "X" case 9 => "IX" case 10 => "V" case 11 => "IV"
    case _ => "I"
  }

  function EntryValue(k: nat): int
    requires k < RomanEntries
  {
    match k
    case 0 => 1000 case 1 => 900 case 2 => 500 case 3 => 400
    case 4 => 100 case 5 => 90 case 6 => 50 case 7 => 40
    case 8 => 10 case 9 => 9 case 10 => 5 case 11 => 4
    case _ => 1
  }

  /** The entry the inner `for` loop stops at: the first one whose value
      does not exceed `i`. */
  function FirstFitting(i: int): (r: nat)
    requires i >= 1
    ensures r < RomanEntries && EntryValue(r) <= i
    ensures r == 0 || EntryValue(r - 1) > i
  {
    if i >= 1000 then 0 else if i >= 900 then 1 else if i >= 500 then 2
    else if i >= 400 then 3 else if i >= 100 then 4 else if i >= 90 then 5
    else if i >= 50 then 6 else if i >= 40 then 7 else if i >= 10 then 8
    else if i >= 9 then 9 else if i >= 5 then 10 else if i >= 4 then 11
    else 12
  }


  predicate IsRomanChar(c: char) {
    c == 'M' || c == 'D' || c == 'C' || c == 'L' || c == 'X' || c == 'V' || c == 'I'
  }

  /** `int_to_text_roman`: greedily spends the largest table entry that
      fits; zero and negative numbers give the empty string. */
  function IntToTextRoman(i: int): (r: string)
    ensures i <= 0 <==> r == ""
    ensures forall j | 0 <= j < |r| :: IsRomanChar(r[j])
    decreases i
  {
    if i <= 0 then ""
    else
      var k := FirstFitting(i);
      EntryShape(k);
      EntryText(k) + IntToTextRoman(i - EntryValue(k))
  }

  function RomanDigit(c: char): int {
    match c
    case 'I' => 1
    case 'V' => 5
    case 'X' => 10
    case 'L' => 50
    case 'C' => 100
    case 'D' => 500
    case 'M' => 1000
    case _ => 0
  }

  predicate IsDigitValue(d: int) {
    d == 1 || d == 5 || d == 10 || d == 50 || d == 100 || d == 500 || d == 1000
  }

  /** The usual reading of a Roman numeral: a digit smaller than the one to
      its right is subtracted, every other digit added. */
  function RomanValue(s: string): int {
    if |s| == 0 then 0
    else if |s| > 1 && RomanDigit(s[0]) < RomanDigit(s[1]) then RomanValue(s[1..]) - RomanDigit(s[0])
    else RomanValue(s[1..]) + RomanDigit(s[0])
  }

  /** Each table entry is a single digit or a subtractive pair worth the
      entry's value. */
  lemma EntryShape(k: nat)
    requires k < RomanEntries
    ensures var t := EntryText(k);
      && 1 <= |t| <= 2
      && (forall j | 0 <= j < |t| :: IsRomanChar(t[j]))
      && IsDigitValue(RomanDigit(t[0])) && RomanDigit(t[0]) <= EntryValue(k)
      && IsDigitValue(RomanDigit(t[|t| - 1]))
      && (|t| == 1 ==> EntryValue(k) == RomanDigit(t[0]))
      && (|t| == 2 ==> RomanDigit(t[0]) < RomanDigit(t[1]) && EntryValue(k) == RomanDigit(t[1]) - RomanDigit(t[0]))
  {
  }

  /** The value of the last digit of entry `k`. */
  function EntryLastDigit(k: nat): int
    requires k < RomanEntries
  {
    var t := EntryText(k);
    if |t| == 0 then 0 else RomanDigit(t[|t| - 1])
  }

  /** A digit value below the gap between entry `k` and the entry before it
      is no larger than the last digit of entry `k`. */
  lemma EntryGap(k: nat, d: int)
    requires k < RomanEntries && IsDigitValue(d)
    requires k == 0 || d < EntryValue(k - 1) - EntryValue(k)
    ensures d <= EntryLastDigit(k)
  {
    EntryShape(k);
  }

  /** A numeral written for `i` starts with a digit worth at most `i`. */
  lemma RomanHead(i: int)
    requires i >= 1
    ensures var r := IntToTextRoman(i);
      |r| > 0 && IsDigitValue(RomanDigit(r[0])) && RomanDigit(r[0]) <= i
  {
    var k := FirstFitting(i);
    EntryShape(k);
    assert IntToTextRoman(i)[0] == EntryText(k)[0];
  }

  /** A digit followed by digits no larger than itself is added. */
  lemma RomanAppendDigit(c: char, rest: string)
    requires |rest| == 0 || RomanDigit(rest[0]) <= RomanDigit(c)
    ensures RomanValue([c] + rest) == RomanDigit(c) + RomanValue(rest)
  {
    assert ([c] + rest)[1..] == rest;
  }

  /** A digit smaller than its right neighbour is subtracted. */
  lemma RomanAppendPair(a: char, b: char, rest: string)
    requires RomanDigit(a) < RomanDigit(b)
    requires |rest| == 0 || RomanDigit(rest[0]) <= RomanDigit(b)
    ensures RomanValue([a, b] + rest) == RomanDigit(b) - RomanDigit(a) + RomanValue(rest)
  {
    assert ([a, b] + rest)[1..] == [b] + rest;
    RomanAppendDigit(b, rest);
  }

  /** The numeral for `i` is entry `k` followed by the numeral for what is
      left, and reads as the entry's value plus the rest's value. */
  lemma RomanStep(i: int)
    requires i >= 1
    ensures var k := FirstFitting(i);
      RomanValue(IntToTextRoman(i)) == EntryValue(k) + RomanValue(IntToTextRoman(i - EntryValue(k)))
  {
    var k := FirstFitting(i);
    var t := EntryText(k);
    var rest := IntToTextRoman(i - EntryValue(k));
    assert IntToTextRoman(i) == t + rest;
    EntryShape(k);
    if i - EntryValue(k) > 0 {
      RomanHead(i - EntryValue(k));
    }
    RestFitsCore(i, k, rest);
    if |t| == 1 {
      assert t == [t[0]];
      RomanAppendDigit(t[0], rest);
    } else {
      assert t == [t[0], t[1]];
      RomanAppendPair(t[0], t[1], rest);
    }
  }

  /** Once `i` has passed the entry before `k`, whatever is left after
      spending entry `k` starts with a digit no larger than the entry's last
      digit. */
  lemma RestFitsCore(i: int, k: nat, rest: string)
    requires k < RomanEntries && EntryValue(k) <= i
    requires k == 0 || EntryValue(k - 1) > i
    requires |rest| > 0 ==> IsDigitValue(RomanDigit(rest[0])) && RomanDigit(rest[0]) <= i - EntryValue(k)
    ensures |rest| == 0 || RomanDigit(rest[0]) <= EntryLastDigit(k)
  {
    if |rest| > 0 {
      EntryGap(k, RomanDigit(rest[0]));
    }
  }



  /** Reading back the numeral `int_to_text_roman` writes gives the number. */
  lemma {:induction false} RomanRoundTrip(i: int)
    requires i >= 0
    ensures RomanValue(IntToTextRoman(i)) == i
  {
    if i > 0 {
      var k := FirstFitting(i);
      RomanRoundTrip(i - EntryValue(k));
      RomanStep(i);
    }
  }
}
