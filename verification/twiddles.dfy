/** The constant tables of the ML-KEM NTT, `ZETA_POW_BITREV` and `GAMMA`,
    and the identities they satisfy: entry `i` of `ZETA_POW_BITREV` is
    `zeta^BitRev7(i)` for zeta = 17, entry `i` of `GAMMA` is that entry
    squared times zeta, and the entries the forward and the inverse NTT use
    for the same butterfly block multiply to `-1`.

    Each Rust array is listed as a function of the 7-bit index (a binary
    search over the index whose leaves are the 128 values of the array, in
    order), so that facts holding for every index are checked by case
    analysis on the bits of the index. The rest of the model reads the
    tables through `ZetaPowBitrev` and `Gamma`, the powers of zeta that
    `ZetaPowBitrevTableAgrees` and `GammaTableAgrees` prove the listed
    entries to be. */
module Twiddles {
  import opened Field

  /** The primitive 256-th root of unity modulo `Q` used by the tables' generator. */
  const ZETA: Fe := 17

  // ---------------------------------------------------------------------
  // The tables as listed
  // ---------------------------------------------------------------------

  /** Entry `x` of the Rust array `ZETA_POW_BITREV`. */
  function ZetaPowBitrevTable(x: bv7): Fe
  {
    if x < 64 then
      if x < 32 then
        if x < 16 then
          if x < 8 then
            if x < 4 then
              if x < 2 then
                if x < 1 then 1 else 1729
              else
                if x < 3 then 2580 else 3289
            else
              if x < 6 then
                if x < 5 then 2642 else 630
              else
                if x < 7 then 1897 else 848
          else
            if x < 12 then
              if x < 10 then
                if x < 9 then 1062 else 1919
              else
                if x < 11 then 193 else 797
            else
              if x < 14 then
                if x < 13 then 2786 else 3260
              else
                if x < 15 then 569 else 1746
        else
          if x < 24 then
            if x < 20 then
              if x < 18 then
                if x < 17 then 296 else 2447
              else
                if x < 19 then 1339 else 1476
            else
              if x < 22 then
                if x < 21 then 3046 else 56
              else
                if x < 23 then 2240 else 1333
          else
            if x < 28 then
              if x < 26 then
                if x < 25 then 1426 else 2094
              else
                if x < 27 then 535 else 2882
            else
              if x < 30 then
                if x < 29 then 2393 else 2879
              else
                if x < 31 then 1974 else 821
      else
        if x < 48 then
          if x < 40 then
            if x < 36 then
              if x < 34 then
                if x < 33 then 289 else 331
              else
                if x < 35 then 3253 else 1756
            else
              if x < 38 then
                if x < 37 then 1197 else 2304
              else
                if x < 39 then 2277 else 2055
          else
            if x < 44 then
              if x < 42 then
                if x < 41 then 650 else 1977
              else
                if x < 43 then 2513 else 632
            else
              if x < 46 then
                if x < 45 then 2865 else 33
              else
                if x < 47 then 1320 else 1915
        else
          if x < 56 then
            if x < 52 then
              if x < 50 then
                if x < 49 then 2319 else 1435
              else
                if x < 51 then 807 else 452
            else
              if x < 54 then
                if x < 53 then 1438 else 2868
              else
                if x < 55 then 1534 else 2402
          else
            if x < 60 then
              if x < 58 then
                if x < 57 then 2647 else 2617
              else
                if x < 59 then 1481 else 648
            else
              if x < 62 then
                if x < 61 then 2474 else 3110
              else
                if x < 63 then 1227 else 910
    else
      if x < 96 then
        if x < 80 then
          if x < 72 then
            if x < 68 then
              if x < 66 then
                if x < 65 then 17 else 2761
              else
                if x < 67 then 583 else 2649
            else
              if x < 70 then
                if x < 69 then 1637 else 723
              else
                if x < 71 then 2288 else 1100
          else
            if x < 76 then
              if x < 74 then
                if x < 73 then 1409 else 2662
              else
                if x < 75 then 3281 else 233
            else
              if x < 78 then
                if x < 77 then 756 else 2156
              else
                if x < 79 then 3015 else 3050
        else
          if x < 88 then
            if x < 84 then
              if x < 82 then
                if x < 81 then 1703 else 1651
              else
                if x < 83 then 2789 else 1789
            else
              if x < 86 then
                if x < 85 then 1847 else 952
              else
                if x < 87 then 1461 else 2687
          else
            if x < 92 then
              if x < 90 then
                if x < 89 then 939 else 2308
              else
                if x < 91 then 2437 else 2388
            else
              if x < 94 then
                if x < 93 then 733 else 2337
              else
                if x < 95 then 268 else 641
      else
        if x < 112 then
          if x < 104 then
            if x < 100 then
              if x < 98 then
                if x < 97 then 1584 else 2298
              else
                if x < 99 then 2037 else 3220
            else
              if x < 102 then
                if x < 101 then 375 else 2549
              else
                if x < 103 then 2090 else 1645
          else
            if x < 108 then
              if x < 106 then
                if x < 105 then 1063 else 319
              else
                if x < 107 then 2773 else 757
            else
              if x < 110 then
                if x < 109 then 2099 else 561
              else
                if x < 111 then 2466 else 2594
        else
          if x < 120 then
            if x < 116 then
              if x < 114 then
                if x < 113 then 2804 else 1092
              else
                if x < 115 then 403 else 1026
            else
              if x < 118 then
                if x < 117 then 1143 else 2150
              else
                if x < 119 then 2775 else 886
          else
            if x < 124 then
              if x < 122 then
                if x < 121 then 1722 else 1212
              else
                if x < 123 then 1874 else 1029
            else
              if x < 126 then
                if x < 125 then 2110 else 2935
              else
                if x < 127 then 885 else 2154
  }

  /** Entry `x` of the Rust array `GAMMA`. */
  function GammaTable(x: bv7): Fe
  {
    if x < 64 then
      if x < 32 then
        if x < 16 then
          if x < 8 then
            if x < 4 then
              if x < 2 then
                if x < 1 then 17 else 3312
              else
                if x < 3 then 2761 else 568
            else
              if x < 6 then
                if x < 5 then 583 else 2746
              else
                if x < 7 then 2649 else 680
          else
            if x < 12 then
              if x < 10 then
                if x < 9 then 1637 else 1692
              else
                if x < 11 then 723 else 2606
            else
              if x < 14 then
                if x < 13 then 2288 else 1041
              else
                if x < 15 then 1100 else 2229
        else
          if x < 24 then
            if x < 20 then
              if x < 18 then
                if x < 17 then 1409 else 1920
              else
                if x < 19 then 2662 else 667
            else
              if x < 22 then
                if x < 21 then 3281 else 48
              else
                if x < 23 then 233 else 3096
          else
            if x < 28 then
              if x < 26 then
                if x < 25 then 756 else 2573
              else
                if x < 27 then 2156 else 1173
            else
              if x < 30 then
                if x < 29 then 3015 else 314
              else
                if x < 31 then 3050 else 279
      else
        if x < 48 then
          if x < 40 then
            if x < 36 then
              if x < 34 then
                if x < 33 then 1703 else 1626
              else
                if x < 35 then 1651 else 1678
            else
              if x < 38 then
                if x < 37 then 2789 else 540
              else
                if x < 39 then 1789 else 1540
          else
            if x < 44 then
              if x < 42 then
                if x < 41 then 1847 else 1482
              else
                if x < 43 then 952 else 2377
            else
              if x < 46 then
                if x < 45 then 1461 else 1868
              else
                if x < 47 then 2687 else 642
        else
          if x < 56 then
            if x < 52 then
              if x < 50 then
                if x < 49 then 939 else 2390
              else
                if x < 51 then 2308 else 1021
            else
              if x < 54 then
                if x < 53 then 2437 else 892
              else
                if x < 55 then 2388 else 941
          else
            if x < 60 then
              if x < 58 then
                if x < 57 then 733 else 2596
              else
                if x < 59 then 2337 else 992
            else
              if x < 62 then
                if x < 61 then 268 else 3061
              else
                if x < 63 then 641 else 2688
    else
      if x < 96 then
        if x < 80 then
          if x < 72 then
            if x < 68 then
              if x < 66 then
                if x < 65 then 1584 else 1745
              else
                if x < 67 then 2298 else 1031
            else
              if x < 70 then
                if x < 69 then 2037 else 1292
              else
                if x < 71 then 3220 else 109
          else
            if x < 76 then
              if x < 74 then
                if x < 73 then 375 else 2954
              else
                if x < 75 then 2549 else 780
            else
              if x < 78 then
                if x < 77 then 2090 else 1239
              else
                if x < 79 then 1645 else 1684
        else
          if x < 88 then
            if x < 84 then
              if x < 82 then
                if x < 81 then 1063 else 2266
              else
                if x < 83 then 319 else 3010
            else
              if x < 86 then
                if x < 85 then 2773 else 556
              else
                if x < 87 then 757 else 2572
          else
            if x < 92 then
              if x < 90 then
                if x < 89 then 2099 else 1230
              else
                if x < 91 then 561 else 2768
            else
              if x < 94 then
                if x < 93 then 2466 else 863
              else
                if x < 95 then 2594 else 735
      else
        if x < 112 then
          if x < 104 then
            if x < 100 then
              if x < 98 then
                if x < 97 then 2804 else 525
              else
                if x < 99 then 1092 else 2237
            else
              if x < 102 then
                if x < 101 then 403 else 2926
              else
                if x < 103 then 1026 else 2303
          else
            if x < 108 then
              if x < 106 then
                if x < 105 then 1143 else 2186
              else
                if x < 107 then 2150 else 1179
            else
              if x < 110 then
                if x < 109 then 2775 else 554
              else
                if x < 111 then 886 else 2443
        else
          if x < 120 then
            if x < 116 then
              if x < 114 then
                if x < 113 then 1722 else 1607
              else
                if x < 115 then 1212 else 2117
            else
              if x < 118 then
                if x < 117 then 1874 else 1455
              else
                if x < 119 then 1029 else 2300
          else
            if x < 124 then
              if x < 122 then
                if x < 121 then 2110 else 1219
              else
                if x < 123 then 2935 else 394
            else
              if x < 126 then
                if x < 125 then 885 else 2444
              else
                if x < 127 then 2154 else 1175
  }

  /** `pow[e]` of the tables' generator for `e < 256`: `pow[0] = 1` and
      `pow[e] = pow[e - 1] * ZETA`. The generator lists the first 128
      values; `GAMMA` uses the odd powers up to 255. */
  function PowersTable(x: bv8): Fe
  {
    if x < 128 then
      if x < 64 then
        if x < 32 then
          if x < 16 then
            if x < 8 then
              if x < 4 then
                if x < 2 then
                  if x < 1 then 1 else 17
                else
                  if x < 3 then 289 else 1584
              else
                if x < 6 then
                  if x < 5 then 296 else 1703
                else
                  if x < 7 then 2319 else 2804
            else
              if x < 12 then
                if x < 10 then
                  if x < 9 then 1062 else 1409
                else
                  if x < 11 then 650 else 1063
              else
                if x < 14 then
                  if x < 13 then 1426 else 939
                else
                  if x < 15 then 2647 else 1722
          else
            if x < 24 then
              if x < 20 then
                if x < 18 then
                  if x < 17 then 2642 else 1637
                else
                  if x < 19 then 1197 else 375
              else
                if x < 22 then
                  if x < 21 then 3046 else 1847
                else
                  if x < 23 then 1438 else 1143
            else
              if x < 28 then
                if x < 26 then
                  if x < 25 then 2786 else 756
                else
                  if x < 27 then 2865 else 2099
              else
                if x < 30 then
                  if x < 29 then 2393 else 733
                else
                  if x < 31 then 2474 else 2110
        else
          if x < 48 then
            if x < 40 then
              if x < 36 then
                if x < 34 then
                  if x < 33 then 2580 else 583
                else
                  if x < 35 then 3253 else 2037
              else
                if x < 38 then
                  if x < 37 then 1339 else 2789
                else
                  if x < 39 then 807 else 403
            else
              if x < 44 then
                if x < 42 then
                  if x < 41 then 193 else 3281
                else
                  if x < 43 then 2513 else 2773
              else
                if x < 46 then
                  if x < 45 then 535 else 2437
                else
                  if x < 47 then 1481 else 1874
          else
            if x < 56 then
              if x < 52 then
                if x < 50 then
                  if x < 49 then 1897 else 2288
                else
                  if x < 51 then 2277 else 2090
              else
                if x < 54 then
                  if x < 53 then 2240 else 1461
                else
                  if x < 55 then 1534 else 2775
            else
              if x < 60 then
                if x < 58 then
                  if x < 57 then 569 else 3015
                else
                  if x < 59 then 1320 else 2466
              else
                if x < 62 then
                  if x < 61 then 1974 else 268
                else
                  if x < 63 then 1227 else 885
      else
        if x < 96 then
          if x < 80 then
            if x < 72 then
              if x < 68 then
                if x < 66 then
                  if x < 65 then 1729 else 2761
                else
                  if x < 67 then 331 else 2298
              else
                if x < 70 then
                  if x < 69 then 2447 else 1651
                else
                  if x < 71 then 1435 else 1092
            else
              if x < 76 then
                if x < 74 then
                  if x < 73 then 1919 else 2662
                else
                  if x < 75 then 1977 else 319
              else
                if x < 78 then
                  if x < 77 then 2094 else 2308
                else
                  if x < 79 then 2617 else 1212
          else
            if x < 88 then
              if x < 84 then
                if x < 82 then
                  if x < 81 then 630 else 723
                else
                  if x < 83 then 2304 else 2549
              else
                if x < 86 then
                  if x < 85 then 56 else 952
                else
                  if x < 87 then 2868 else 2150
            else
              if x < 92 then
                if x < 90 then
                  if x < 89 then 3260 else 2156
                else
                  if x < 91 then 33 else 561
              else
                if x < 94 then
                  if x < 93 then 2879 else 2337
                else
                  if x < 95 then 3110 else 2935
        else
          if x < 112 then
            if x < 104 then
              if x < 100 then
                if x < 98 then
                  if x < 97 then 3289 else 2649
                else
                  if x < 99 then 1756 else 3220
              else
                if x < 102 then
                  if x < 101 then 1476 else 1789
                else
                  if x < 103 then 452 else 1026
            else
              if x < 108 then
                if x < 106 then
                  if x < 105 then 797 else 233
                else
                  if x < 107 then 632 else 757
              else
                if x < 110 then
                  if x < 109 then 2882 else 2388
                else
                  if x < 111 then 648 else 1029
          else
            if x < 120 then
              if x < 116 then
                if x < 114 then
                  if x < 113 then 848 else 1100
                else
                  if x < 115 then 2055 else 1645
              else
                if x < 118 then
                  if x < 117 then 1333 else 2687
                else
                  if x < 119 then 2402 else 886
            else
              if x < 124 then
                if x < 122 then
                  if x < 121 then 1746 else 3050
                else
                  if x < 123 then 1915 else 2594
              else
                if x < 126 then
                  if x < 125 then 821 else 641
                else
                  if x < 127 then 910 else 2154
    else
      if x < 192 then
        if x < 160 then
          if x < 144 then
            if x < 136 then
              if x < 132 then
                if x < 130 then
                  if x < 129 then 3328 else 3312
                else
                  if x < 131 then 3040 else 1745
              else
                if x < 134 then
                  if x < 133 then 3033 else 1626
                else
                  if x < 135 then 1010 else 525
            else
              if x < 140 then
                if x < 138 then
                  if x < 137 then 2267 else 1920
                else
                  if x < 139 then 2679 else 2266
              else
                if x < 142 then
                  if x < 141 then 1903 else 2390
                else
                  if x < 143 then 682 else 1607
          else
            if x < 152 then
              if x < 148 then
                if x < 146 then
                  if x < 145 then 687 else 1692
                else
                  if x < 147 then 2132 else 2954
              else
                if x < 150 then
                  if x < 149 then 283 else 1482
                else
                  if x < 151 then 1891 else 2186
            else
              if x < 156 then
                if x < 154 then
                  if x < 153 then 543 else 2573
                else
                  if x < 155 then 464 else 1230
              else
                if x < 158 then
                  if x < 157 then 936 else 2596
                else
                  if x < 159 then 855 else 1219
        else
          if x < 176 then
            if x < 168 then
              if x < 164 then
                if x < 162 then
                  if x < 161 then 749 else 2746
                else
                  if x < 163 then 76 else 1292
              else
                if x < 166 then
                  if x < 165 then 1990 else 540
                else
                  if x < 167 then 2522 else 2926
            else
              if x < 172 then
                if x < 170 then
                  if x < 169 then 3136 else 48
                else
                  if x < 171 then 816 else 556
              else
                if x < 174 then
                  if x < 173 then 2794 else 892
                else
                  if x < 175 then 1848 else 1455
          else
            if x < 184 then
              if x < 180 then
                if x < 178 then
                  if x < 177 then 1432 else 1041
                else
                  if x < 179 then 1052 else 1239
              else
                if x < 182 then
                  if x < 181 then 1089 else 1868
                else
                  if x < 183 then 1795 else 554
            else
              if x < 188 then
                if x < 186 then
                  if x < 185 then 2760 else 314
                else
                  if x < 187 then 2009 else 863
              else
                if x < 190 then
                  if x < 189 then 1355 else 3061
                else
                  if x < 191 then 2102 else 2444
      else
        if x < 224 then
          if x < 208 then
            if x < 200 then
              if x < 196 then
                if x < 194 then
                  if x < 193 then 1600 else 568
                else
                  if x < 195 then 2998 else 1031
              else
                if x < 198 then
                  if x < 197 then 882 else 1678
                else
                  if x < 199 then 1894 else 2237
            else
              if x < 204 then
                if x < 202 then
                  if x < 201 then 1410 else 667
                else
                  if x < 203 then 1352 else 3010
              else
                if x < 206 then
                  if x < 205 then 1235 else 1021
                else
                  if x < 207 then 712 else 2117
          else
            if x < 216 then
              if x < 212 then
                if x < 210 then
                  if x < 209 then 2699 else 2606
                else
                  if x < 211 then 1025 else 780
              else
                if x < 214 then
                  if x < 213 then 3273 else 2377
                else
                  if x < 215 then 461 else 1179
            else
              if x < 220 then
                if x < 218 then
                  if x < 217 then 69 else 1173
                else
                  if x < 219 then 3296 else 2768
              else
                if x < 222 then
                  if x < 221 then 450 else 992
                else
                  if x < 223 then 219 else 394
        else
          if x < 240 then
            if x < 232 then
              if x < 228 then
                if x < 226 then
                  if x < 225 then 40 else 680
                else
                  if x < 227 then 1573 else 109
              else
                if x < 230 then
                  if x < 229 then 1853 else 1540
                else
                  if x < 231 then 2877 else 2303
            else
              if x < 236 then
                if x < 234 then
                  if x < 233 then 2532 else 3096
                else
                  if x < 235 then 2697 else 2572
              else
                if x < 238 then
                  if x < 237 then 447 else 941
                else
                  if x < 239 then 2681 else 2300
          else
            if x < 248 then
              if x < 244 then
                if x < 242 then
                  if x < 241 then 2481 else 2229
                else
                  if x < 243 then 1274 else 1684
              else
                if x < 246 then
                  if x < 245 then 1996 else 642
                else
                  if x < 247 then 927 else 2443
            else
              if x < 252 then
                if x < 250 then
                  if x < 249 then 1583 else 279
                else
                  if x < 251 then 1414 else 735
              else
                if x < 254 then
                  if x < 253 then 2508 else 2688
                else
                  if x < 255 then 2419 else 1175
  }

  // ---------------------------------------------------------------------
  // Indices as bit-vectors
  // ---------------------------------------------------------------------

  /** The index `k` as a 7-bit value. */
  function ToBv7(k: nat): (x: bv7)
    requires k < 128
    ensures x as int == k
  {
    if k == 0 then 0
    else
      var y := ToBv7(k - 1);
      SuccBv7(y);
      y + 1
  }

  /** The exponent `e` as an 8-bit value. */
  function ToBv8(e: nat): (x: bv8)
    requires e < 256
    ensures x as int == e
  {
    if e == 0 then 0
    else
      var y := ToBv8(e - 1);
      SuccBv8(y);
      y + 1
  }

  lemma SuccBv7(y: bv7)
    requires y as int < 127
    ensures (y + 1) as int == y as int + 1
  {
  }

  lemma SuccBv8(y: bv8)
    requires y as int < 255
    ensures (y + 1) as int == y as int + 1
  {
  }

  /** `ToBv7` inverts the conversion to a natural number. */
  lemma {:induction false} ToBv7Inverse(x: bv7)
    ensures ToBv7(x as int) == x
    decreases x as int
  {
    if x != 0 {
      SuccBv7(x - 1);
      ToBv7Inverse(x - 1);
    }
  }

  /** `ToBv8` inverts the conversion to a natural number. */
  lemma {:induction false} ToBv8Inverse(x: bv8)
    ensures ToBv8(x as int) == x
    decreases x as int
  {
    if x != 0 {
      SuccBv8(x - 1);
      ToBv8Inverse(x - 1);
    }
  }

  lemma ToBv8Pred(e: nat)
    requires 0 < e < 256
    ensures ToBv8(e) - 1 == ToBv8(e - 1)
  {
    var x, y := ToBv8(e), ToBv8(e - 1);
    assert (x - 1) as int == y as int;
  }

  /** A 7-bit value, and the odd exponent built from it, as 8-bit values. */
  lemma WidenBv7Value(y: bv7)
    ensures (y as bv8) as int == y as int
    ensures ((y as bv8) * 2 + 1) as int == 2 * (y as int) + 1
  {
  }

  // ---------------------------------------------------------------------
  // Bit reversal and the powers of zeta
  // ---------------------------------------------------------------------

  /** `bit_reverse` of the tables' generator on 7 bits: bit `j` of the input
      becomes bit `6 - j` of the output. */
  function BitRev7Bits(b: bv7): bv7
  {
    ((b & 1) << 6) | ((b & 2) << 4) | ((b & 4) << 2) | (b & 8)
      | ((b & 16) >> 2) | ((b & 32) >> 4) | ((b & 64) >> 6)
  }

  /** `BitRev7(i)` for an index below 128. */
  function BitRev7(i: nat): (r: nat)
    requires i < 128
    ensures r < 128
  {
    BitRev7Bits(ToBv7(i)) as int
  }

  /** `zeta^e` in the field: each power is the previous one times `ZETA`,
      as the tables' generator computes `pow`. */
  function ZetaPow(e: nat): Fe
  {
    if e == 0 then 1 else Mul(ZetaPow(e - 1), ZETA)
  }

  /** Powers of zeta add their exponents. */
  lemma {:induction false} ZetaPowAdd(a: nat, b: nat)
    ensures ZetaPow(a + b) == Mul(ZetaPow(a), ZetaPow(b))
    decreases b
  {
    if b == 0 {
      MulOne(ZetaPow(a));
    } else {
      ZetaPowAdd(a, b - 1);
      MulAssociates(ZetaPow(a), ZetaPow(b - 1), ZETA);
      assert ZetaPow(a + b) == Mul(ZetaPow(a + (b - 1)), ZETA);
    }
  }

  /** `ZETA_POW_BITREV[i]`: zeta to the bit-reversed index. */
  function ZetaPowBitrev(i: nat): Fe
    requires i < 128
  {
    ZetaPow(BitRev7(i))
  }

  /** `GAMMA[i]`: zeta to twice the bit-reversed index, plus one. */
  function Gamma(i: nat): Fe
    requires i < 128
  {
    ZetaPow(2 * BitRev7(i) + 1)
  }

  // ---------------------------------------------------------------------
  // The listed tables hold the powers
  // ---------------------------------------------------------------------

  lemma ZetaTableBits(x: bv7)
    ensures ZetaPowBitrevTable(x) == PowersTable(BitRev7Bits(x) as bv8)
  {
  }

  lemma GammaTableBits(x: bv7)
    ensures GammaTable(x) == PowersTable((BitRev7Bits(x) as bv8) * 2 + 1)
  {
  }

  lemma PowersStepLow(x: bv8)
    requires 0 < x < 128
    ensures PowersTable(x) == PowersTable(x - 1) * 17 % Q
  {
  }

  lemma PowersStepHigh(x: bv8)
    requires 128 <= x
    ensures PowersTable(x) == PowersTable(x - 1) * 17 % Q
  {
  }

  /** One step of the helper table, with natural-number exponents. */
  lemma PowersStep(e: nat)
    requires 0 < e < 256
    ensures PowersTable(ToBv8(e)) == PowersTable(ToBv8(e - 1)) * 17 % Q
  {
    var x := ToBv8(e);
    ToBv8Pred(e);
    if x < 128 {
      PowersStepLow(x);
    } else {
      PowersStepHigh(x);
    }
  }

  /** The helper table lists the powers of zeta. */
  lemma {:induction false} PowersAgree(e: nat)
    requires e < 256
    ensures PowersTable(ToBv8(e)) == ZetaPow(e)
  {
    if e > 0 {
      PowersAgree(e - 1);
      PowersStep(e);
      ZetaPowStep(e);
    }
  }

  /** Each power of zeta is the previous one times 17, reduced. */
  lemma ZetaPowStep(e: nat)
    requires 0 < e
    ensures ZetaPow(e) == ZetaPow(e - 1) * 17 % Q
  {
  }

  /** The helper table lists the powers of zeta, over 8-bit exponents. */
  lemma PowersAgreeBits(w: bv8)
    ensures PowersTable(w) == ZetaPow(w as int)
  {
    ToBv8Inverse(w);
    PowersAgree(w as int);
  }

  /** Every entry of the Rust `ZETA_POW_BITREV` is `zeta^BitRev7(i)`. */
  lemma ZetaPowBitrevTableAgrees(i: nat)
    requires i < 128
    ensures ZetaPowBitrevTable(ToBv7(i)) == ZetaPowBitrev(i)
  {
    var x := ToBv7(i);
    var r := BitRev7Bits(x);
    ZetaTableBits(x);
    PowersAgreeBits(r as bv8);
    WidenBv7Value(r);
  }

  /** Every entry of the Rust `GAMMA` is `zeta^(2 * BitRev7(i) + 1)`. */
  lemma GammaTableAgrees(i: nat)
    requires i < 128
    ensures GammaTable(ToBv7(i)) == Gamma(i)
  {
    var x := ToBv7(i);
    var r := BitRev7Bits(x);
    GammaTableBits(x);
    PowersAgreeBits((r as bv8) * 2 + 1);
    WidenBv7Value(r);
  }

  /** Reading `ZETA_POW_BITREV[k]`. */
  method ZetaPowBitrevEntry(k: nat) returns (z: Fe)
    requires k < 128
    ensures z == ZetaPowBitrev(k)
  {
    z := ZetaPowBitrevTable(ToBv7(k));
    ZetaPowBitrevTableAgrees(k);
  }

  /** Reading `GAMMA[i]`. */
  method GammaEntry(i: nat) returns (g: Fe)
    requires i < 128
    ensures g == Gamma(i)
  {
    g := GammaTable(ToBv7(i));
    GammaTableAgrees(i);
  }

  // ---------------------------------------------------------------------
  // Identities of the powers
  // ---------------------------------------------------------------------

  /** zeta^128 = -1: zeta is a primitive 256-th root of unity. */
  lemma ZetaPowHalf()
    ensures ZetaPow(128) == Q - 1
  {
    PowersAgreeBits(128);
  }

  /** `GAMMA[i] = ZETA_POW_BITREV[i]^2 * zeta`, the formula of the tables'
      generator. */
  lemma GammaIsSquareTimesZeta(i: nat)
    requires i < 128
    ensures Gamma(i) == Mul(Mul(ZetaPowBitrev(i), ZetaPowBitrev(i)), ZETA)
  {
    var r := BitRev7(i);
    ZetaPowAdd(r, r);
    assert ZetaPow(r + r + 1) == Mul(ZetaPow(r + r), ZETA);
    assert r + r + 1 == 2 * r + 1;
  }

  /** The index `PairedIndex(k)` on 7 bits. */
  function PairedBits(k: bv7): bv7
  {
    if k < 2 then 1
    else if k < 4 then 5 - k
    else if k < 8 then 11 - k
    else if k < 16 then 23 - k
    else if k < 32 then 47 - k
    else if k < 64 then 95 - k
    else 127 - (k - 64)
  }

  lemma PairedBitRevBits(k: bv7)
    requires k != 0
    ensures (BitRev7Bits(k) as bv8) + (BitRev7Bits(PairedBits(k)) as bv8) == 128
  {
  }

  /** The index whose entry pairs with entry `k`: layer `l` of the NTT reads
      entries `2^l .. 2^(l+1) - 1` in increasing order and the inverse NTT
      reads them in decreasing order, so block `b` of a layer uses entry
      `2^l + b` going forward and entry `2^(l+1) - 1 - b` going back. */
  function PairedIndex(k: nat): (p: nat)
    requires 1 <= k < 128
    ensures 1 <= p < 128
  {
    if k < 2 then 1
    else if k < 4 then 5 - k
    else if k < 8 then 11 - k
    else if k < 16 then 23 - k
    else if k < 32 then 47 - k
    else if k < 64 then 95 - k
    else 191 - k
  }

  lemma PairedIndexBits(x: bv7)
    requires x != 0
    ensures PairedBits(x) as int == PairedIndex(x as int)
  {
  }

  /** The exponents of paired entries add up to 128. */
  lemma PairedExponents(k: nat)
    requires 1 <= k < 128
    ensures BitRev7(k) + BitRev7(PairedIndex(k)) == 128
  {
    var x := ToBv7(k);
    PairedIndexBits(x);
    ToBv7Inverse(PairedBits(x));
    PairedBitRevBits(x);
  }

  /** Paired entries multiply to `-1`: the butterfly of the inverse NTT
      undoes the forward one up to a factor of 2. */
  lemma ZetaPaired(k: nat)
    requires 1 <= k < 128
    ensures Mul(ZetaPowBitrev(k), ZetaPowBitrev(PairedIndex(k))) == Q - 1
  {
    var p := PairedIndex(k);
    PairedExponents(k);
    ZetaPowAdd(BitRev7(k), BitRev7(p));
    ZetaPowHalf();
  }
}
