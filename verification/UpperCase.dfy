/** The upper-case form of a code point (pico/lib/picobase.c, `base_utf32_uppercase`). */
module UpperCase {
  import opened LowerCase

  /** Code points from 7681 to 9449: Latin and Greek extended, letter-like and enclosed symbols. */
  function UpperExtended(c: nat): nat {
    if 7681 <= c <= 7829 || 7841 <= c <= 7929 then (if c % 2 == 1 then c - 1 else c)
    else if 7936 <= c <= 7943 || 7952 <= c <= 7957 || 7968 <= c <= 7975 || 7984 <= c <= 7991 ||
       8000 <= c <= 8005 || 8032 <= c <= 8039 || 8064 <= c <= 8071 || 8080 <= c <= 8087 ||
       8096 <= c <= 8103 then c + 8
    else if 8017 <= c <= 8023 then (if c % 2 == 1 then c + 8 else c)
    else if 8560 <= c <= 8575 then c - 16
    else if 9424 <= c <= 9449 then c - 26
    else match c {
      case 7835 => 7776 case 8048 => 8122 case 8049 => 8123 case 8050 => 8136 case 8051 => 8137 case 8052 => 8138
      case 8053 => 8139 case 8054 => 8154 case 8055 => 8155 case 8056 => 8184 case 8057 => 8185 case 8058 => 8170
      case 8059 => 8171 case 8060 => 8186 case 8061 => 8187 case 8112 => 8120 case 8113 => 8121 case 8115 => 8124
      case 8126 => 921 case 8131 => 8140 case 8144 => 8152 case 8145 => 8153 case 8160 => 8168 case 8161 => 8169
      case 8165 => 8172 case 8179 => 8188 case _ => c
    }
  }

  /** Latin letters; 247 is the sign of division. */
  function UpperLatin(c: nat): nat {
    if 97 <= c <= 122 || (224 <= c <= 254 && c != 247) then c - 32
    else if 257 <= c <= 304 || 306 <= c <= 311 || 331 <= c <= 375 || 417 <= c <= 421 || 481 <= c <= 495 ||
       507 <= c <= 511 || 513 <= c <= 544 || 546 <= c <= 563 then (if c % 2 == 1 then c - 1 else c)
    else if 314 <= c <= 328 || 378 <= c <= 382 || 464 <= c <= 476 then (if c % 2 == 0 then c - 1 else c)
    else match c {
      case 181 => 924 case 255 => 376 case 305 => 73 case 383 => 83 case 387 => 386 case 389 => 388 case 392 => 391
      case 396 => 395 case 402 => 401 case 405 => 502 case 409 => 408 case 414 => 544 case 424 => 423 case 429 => 428
      case 432 => 431 case 436 => 435 case 438 => 437 case 441 => 440 case 445 => 444 case 447 => 503 case 453 => 452
      case 454 => 452 case 456 => 455 case 457 => 455 case 459 => 458 case 460 => 458 case 462 => 461 case 477 => 398
      case 479 => 478 case 498 => 497 case 499 => 497 case 501 => 500 case 505 => 504 case 595 => 385 case 596 => 390
      case 598 => 393 case 599 => 394 case 601 => 399 case 603 => 400 case 608 => 403 case 611 => 404 case 616 => 407
      case 617 => 406 case 623 => 412 case 626 => 413 case 629 => 415 case 640 => 422 case 643 => 425 case 648 => 430
      case 650 => 433 case 651 => 434 case 658 => 439 case 837 => 921 case _ => c
    }
  }

  /** Greek, Cyrillic and Armenian letters. */
  function UpperGreek(c: nat): nat {
    if 945 <= c <= 961 || 963 <= c <= 971 || 1072 <= c <= 1103 then c - 32
    else if 985 <= c <= 1007 || 1121 <= c <= 1153 || 1163 <= c <= 1215 || 1233 <= c <= 1269 ||
       1281 <= c <= 1295 then (if c % 2 == 1 then c - 1 else c)
    else if 1218 <= c <= 1230 then (if c % 2 == 0 then c - 1 else c)
    else if 1104 <= c <= 1119 then c - 80
    else if 1377 <= c <= 1414 then c - 48
    else match c {
      case 940 => 902 case 941 => 904 case 942 => 905 case 943 => 906 case 962 => 931 case 972 => 908 case 973 => 910
      case 974 => 911 case 976 => 914 case 977 => 920 case 981 => 934 case 982 => 928 case 1008 => 922
      case 1009 => 929 case 1010 => 1017 case 1013 => 917 case 1016 => 1015 case 1019 => 1018 case 1273 => 1272
      case _ => c
    }
  }

  function Upper(c: nat): nat {
    if 65345 <= c <= 65370 then c - 32
    else if 66600 <= c <= 66639 then c - 40
    else if 7681 <= c <= 9449 then UpperExtended(c)
    else if c < 900 then UpperLatin(c)
    else UpperGreek(c)
  }

  /**
   * Letters that share the upper case of another letter: the micro sign, the final sigma and other second forms of a
   * letter, and the title-case letters of the digraphs.
   */
  predicate SecondForm(c: nat) {
    c in {181, 305, 383, 453, 456, 459, 498, 837, 962, 976, 977, 981, 982, 1008, 1009, 1013, 7835, 8126}
  }

  /**
   * Capital letters that share the lower case of another letter: the dotted I, the title-case letters of the digraphs,
   * the theta symbol, and the signs of Ohm, Kelvin and Angstrom.
   */
  predicate SecondCapital(c: nat) { c in {304, 453, 456, 459, 498, 1012, 8486, 8490, 8491} }

  lemma FirstRaised(c: nat)
    requires c < 420 && UpperLatin(c) != c && c != 181
    ensures UpperLatin(c) < 900 && LowerLatin(UpperLatin(c)) != UpperLatin(c)
    ensures LowerLatin(UpperLatin(c)) == c <==> !SecondForm(c)
  {
  }

  lemma DigraphRaised(c: nat)
    requires 420 <= c < 590 && UpperLatin(c) != c
    ensures UpperLatin(c) < 900 && LowerLatin(UpperLatin(c)) != UpperLatin(c)
    ensures LowerLatin(UpperLatin(c)) == c <==> !SecondForm(c)
  {
  }

  lemma PhoneticRaised(c: nat)
    requires 590 <= c < 900 && UpperLatin(c) != c && c != 837
    ensures UpperLatin(c) < 900 && LowerLatin(UpperLatin(c)) != UpperLatin(c)
    ensures LowerLatin(UpperLatin(c)) == c <==> !SecondForm(c)
  {
  }

  lemma GreekRaised(c: nat)
    requires 900 <= c && UpperGreek(c) != c
    ensures c < 7680 && 900 <= UpperGreek(c) < 7680 && LowerGreek(UpperGreek(c)) != UpperGreek(c)
    ensures LowerGreek(UpperGreek(c)) == c <==> !SecondForm(c)
  {
  }

  lemma ExtendedRaised(c: nat)
    requires 7680 < c < 9450 && UpperExtended(c) != c && c != 8126
    ensures 7680 <= UpperExtended(c) <= 9423 && LowerExtended(UpperExtended(c)) != UpperExtended(c)
    ensures LowerExtended(UpperExtended(c)) == c <==> !SecondForm(c)
  {
  }

  lemma FirstLowered(c: nat)
    requires c < 420 && LowerLatin(c) != c
    ensures LowerLatin(c) < 900
    ensures UpperLatin(LowerLatin(c)) == c <==> !SecondCapital(c)
  {
  }

  lemma LatinLowered(c: nat)
    requires 420 <= c < 900 && LowerLatin(c) != c
    ensures LowerLatin(c) < 900
    ensures UpperLatin(LowerLatin(c)) == c <==> !SecondCapital(c)
  {
  }

  lemma GreekLowered(c: nat)
    requires 900 <= c && LowerGreek(c) != c
    ensures c < 7680 && 900 <= LowerGreek(c) < 7680
    ensures UpperGreek(LowerGreek(c)) == c <==> !SecondCapital(c)
  {
  }

  lemma ExtendedLowered(c: nat)
    requires 7680 <= c <= 9423 && LowerExtended(c) != c && c != 8486 && c != 8490 && c != 8491
    ensures 7680 < LowerExtended(c) < 9450
    ensures UpperExtended(LowerExtended(c)) == c <==> !SecondCapital(c)
  {
  }

  lemma AcrossRaised(c: nat)
    requires c == 181 || c == 837 || c == 8126
    ensures Lower(Upper(c)) == Upper(c) + 32 != c && SecondForm(c)
  {
  }

  lemma AcrossLowered(c: nat)
    requires c == 8486 || c == 8490 || c == 8491
    ensures Upper(Lower(c)) == Lower(c) - 32 != c && SecondCapital(c)
  {
  }

  /** A capital letter is converted to lower case: back to its small letter, except for the second forms of a letter. */
  lemma LowerUndoesUpper(c: nat)
    requires Upper(c) != c
    ensures Lower(Upper(c)) != Upper(c)
    ensures Lower(Upper(c)) == c <==> !SecondForm(c)
  {
    hide LowerExtended, LowerLatin, LowerGreek, UpperExtended, UpperLatin, UpperGreek;
    if c == 181 || c == 837 || c == 8126 {
      AcrossRaised(c);
    } else if 7681 <= c <= 9449 {
      ExtendedRaised(c);
    } else if c < 420 {
      FirstRaised(c);
    } else if c < 590 {
      DigraphRaised(c);
    } else if c < 900 {
      PhoneticRaised(c);
    } else if c < 60000 {
      GreekRaised(c);
    } else if 65345 <= c <= 65370 || 66600 <= c <= 66639 {
      assert Lower(c - 32) == c || Lower(c - 40) == c;
    } else {
      GreekRaised(c);
    }
  }

  /** Conversion of a small letter to upper case leads back to the capital letter, except for second capitals. */
  lemma UpperUndoesLower(c: nat)
    requires Lower(c) != c
    ensures Upper(Lower(c)) == c <==> !SecondCapital(c)
  {
    hide LowerExtended, LowerLatin, LowerGreek, UpperExtended, UpperLatin, UpperGreek;
    if c == 8486 || c == 8490 || c == 8491 {
      AcrossLowered(c);
    } else if 7680 <= c <= 9423 {
      ExtendedLowered(c);
    } else if c < 420 {
      FirstLowered(c);
    } else if c < 900 {
      LatinLowered(c);
    } else if 65313 <= c <= 65338 || 66560 <= c <= 66599 {
      assert Upper(c + 32) == c || Upper(c + 40) == c;
    } else {
      GreekLowered(c);
    }
  }
}
