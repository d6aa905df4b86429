/** The lower-case form of a code point (pico/lib/picobase.c, `base_utf32_lowercase`). */
module LowerCase {

  /** Code points from 7680 to 9423: Latin and Greek extended, letter-like and enclosed symbols. */
  function LowerExtended(c: nat): nat {
    if 7680 <= c <= 7828 || 7840 <= c <= 7928 then (if c % 2 == 0 then c + 1 else c)
    else if 7944 <= c <= 7951 || 7960 <= c <= 7965 || 7976 <= c <= 7983 || 7992 <= c <= 7999 ||
       8008 <= c <= 8013 || 8040 <= c <= 8047 || 8072 <= c <= 8079 || 8088 <= c <= 8095 ||
       8104 <= c <= 8111 then c - 8
    else if 8025 <= c <= 8031 then (if c % 2 == 1 then c - 8 else c)
    else if 8544 <= c <= 8559 then c + 16
    else if 9398 <= c <= 9423 then c + 26
    else match c {
      case 8120 => 8112 case 8121 => 8113 case 8122 => 8048 case 8123 => 8049 case 8124 => 8115
      case 8136 => 8050 case 8137 => 8051 case 8138 => 8052 case 8139 => 8053 case 8140 => 8131
      case 8152 => 8144 case 8153 => 8145 case 8154 => 8054 case 8155 => 8055 case 8168 => 8160
      case 8169 => 8161 case 8170 => 8058 case 8171 => 8059 case 8172 => 8165 case 8184 => 8056
      case 8185 => 8057 case 8186 => 8060 case 8187 => 8061 case 8188 => 8179 case 8486 => 969
      case 8490 => 107 case 8491 => 229 case _ => c
    }
  }

  /** Latin letters. */
  function LowerLatin(c: nat): nat {
    if 65 <= c <= 90 || 192 <= c <= 214 || 216 <= c <= 222 then c + 32
    else if 256 <= c <= 303 || 305 <= c <= 310 || 330 <= c <= 374 || 416 <= c <= 420 ||
       478 <= c <= 494 || 504 <= c <= 542 || 546 <= c <= 562 then (if c % 2 == 0 then c + 1 else c)
    else if 313 <= c <= 327 || 377 <= c <= 381 || 459 <= c <= 475 then (if c % 2 == 1 then c + 1 else c)
    else match c {
      case 304 => 105 case 376 => 255 case 385 => 595 case 386 => 387 case 388 => 389 case 390 => 596 case 391 => 392
      case 393 => 598 case 394 => 599 case 395 => 396 case 398 => 477 case 399 => 601 case 400 => 603 case 401 => 402
      case 403 => 608 case 404 => 611 case 406 => 617 case 407 => 616 case 408 => 409 case 412 => 623 case 413 => 626
      case 415 => 629 case 422 => 640 case 423 => 424 case 425 => 643 case 428 => 429 case 430 => 648 case 431 => 432
      case 433 => 650 case 434 => 651 case 435 => 436 case 437 => 438 case 439 => 658 case 440 => 441 case 444 => 445
      case 452 => 454 case 453 => 454 case 455 => 457 case 456 => 457 case 458 => 460 case 497 => 499 case 498 => 499
      case 500 => 501 case 502 => 405 case 503 => 447 case 544 => 414 case _ => c
    }
  }

  /** Greek, Cyrillic and Armenian letters. */
  function LowerGreek(c: nat): nat {
    if 913 <= c <= 929 || 931 <= c <= 939 || 1040 <= c <= 1071 then c + 32
    else if 984 <= c <= 1006 || 1120 <= c <= 1152 || 1162 <= c <= 1214 || 1232 <= c <= 1268 ||
       1280 <= c <= 1294 then (if c % 2 == 0 then c + 1 else c)
    else if 1217 <= c <= 1229 then (if c % 2 == 1 then c + 1 else c)
    else if 1024 <= c <= 1039 then c + 80
    else if 1329 <= c <= 1366 then c + 48
    else match c {
      case 902 => 940 case 904 => 941 case 905 => 942 case 906 => 943 case 908 => 972 case 910 => 973 case 911 => 974
      case 1012 => 952 case 1015 => 1016 case 1017 => 1010 case 1018 => 1019 case 1272 => 1273 case _ => c
    }
  }

  function Lower(c: nat): nat {
    if 65313 <= c <= 65338 then c + 32
    else if 66560 <= c <= 66599 then c + 40
    else if 7680 <= c <= 9423 then LowerExtended(c)
    else if c < 900 then LowerLatin(c)
    else LowerGreek(c)
  }

  lemma ExtendedFixed(c: nat)
    requires 7680 <= c <= 9423
    ensures Lower(LowerExtended(c)) == LowerExtended(c)
  {
  }

  lemma LatinFixed(c: nat)
    requires c < 900
    ensures LowerLatin(c) < 900 && LowerLatin(LowerLatin(c)) == LowerLatin(c)
  {
  }

  lemma GreekFixed(c: nat)
    requires 900 <= c
    ensures LowerGreek(c) == c || 900 <= LowerGreek(c) < 7680
    ensures LowerGreek(LowerGreek(c)) == LowerGreek(c)
  {
  }

  /** A lower-case code point is its own lower-case form. */
  lemma LowerIdempotent(c: nat)
    ensures Lower(Lower(c)) == Lower(c)
  {
    if 7680 <= c <= 9423 {
      ExtendedFixed(c);
    } else if c < 900 {
      LatinFixed(c);
    } else {
      GreekFixed(c);
    }
  }

  /** The lower-case form has no larger code than its size class in UTF-8 allows. */
  lemma LowerNotLonger(c: nat)
    ensures c < 128 ==> Lower(c) < 128
    ensures c < 2048 ==> Lower(c) < 2048
    ensures c < 65536 ==> Lower(c) < 65536
    ensures c < 0x100000 ==> Lower(c) < 0x100000
    ensures c >= 0x100000 ==> Lower(c) == c
    ensures c > 0 ==> Lower(c) > 0
  {
  }
}
