/**
 The two tables of desktop/ff.py. A table is laid out as a decision tree over the bits of
 its index, eight consecutive entries to a line; zk says that bit k is zero.
 */
module GF256Tables {

  // exptable[i]
  function ExpTable(i: bv8): bv8 {
    var z0, z1, z2, z3 := i & 0x01 == 0, i & 0x02 == 0, i & 0x04 == 0, i & 0x08 == 0;
    var z4, z5, z6, z7 := i & 0x10 == 0, i & 0x20 == 0, i & 0x40 == 0, i & 0x80 == 0;
    if z7 then
      if z6 then
        if z5 then
          if z4 then
            if z3 then
              if z2 then if z1 then if z0 then 1 else 3 else if z0 then 5 else 15
              else if z1 then if z0 then 17 else 51 else if z0 then 85 else 255
            else
              if z2 then if z1 then if z0 then 26 else 46 else if z0 then 114 else 150
              else if z1 then if z0 then 161 else 248 else if z0 then 19 else 53
          else
            if z3 then
              if z2 then if z1 then if z0 then 95 else 225 else if z0 then 56 else 72
              else if z1 then if z0 then 216 else 115 else if z0 then 149 else 164
            else
              if z2 then if z1 then if z0 then 247 else 2 else if z0 then 6 else 10
              else if z1 then if z0 then 30 else 34 else if z0 then 102 else 170
        else
          if z4 then
            if z3 then
              if z2 then if z1 then if z0 then 229 else 52 else if z0 then 92 else 228
              else if z1 then if z0 then 55 else 89 else if z0 then 235 else 38
            else
              if z2 then if z1 then if z0 then 106 else 190 else if z0 then 217 else 112
              else if z1 then if z0 then 144 else 171 else if z0 then 230 else 49
          else
            if z3 then
              if z2 then if z1 then if z0 then 83 else 245 else if z0 then 4 else 12
              else if z1 then if z0 then 20 else 60 else if z0 then 68 else 204
            else
              if z2 then if z1 then if z0 then 79 else 209 else if z0 then 104 else 184
              else if z1 then if z0 then 211 else 110 else if z0 then 178 else 205
      else
        if z5 then
          if z4 then
            if z3 then
              if z2 then if z1 then if z0 then 76 else 212 else if z0 then 103 else 169
              else if z1 then if z0 then 224 else 59 else if z0 then 77 else 215
            else
              if z2 then if z1 then if z0 then 98 else 166 else if z0 then 241 else 8
              else if z1 then if z0 then 24 else 40 else if z0 then 120 else 136
          else
            if z3 then
              if z2 then if z1 then if z0 then 131 else 158 else if z0 then 185 else 208
              else if z1 then if z0 then 107 else 189 else if z0 then 220 else 127
            else
              if z2 then if z1 then if z0 then 129 else 152 else if z0 then 179 else 206
              else if z1 then if z0 then 73 else 219 else if z0 then 118 else 154
        else
          if z4 then
            if z3 then
              if z2 then if z1 then if z0 then 181 else 196 else if z0 then 87 else 249
              else if z1 then if z0 then 16 else 48 else if z0 then 80 else 240
            else
              if z2 then if z1 then if z0 then 11 else 29 else if z0 then 39 else 105
              else if z1 then if z0 then 187 else 214 else if z0 then 97 else 163
          else
            if z3 then
              if z2 then if z1 then if z0 then 254 else 25 else if z0 then 43 else 125
              else if z1 then if z0 then 135 else 146 else if z0 then 173 else 236
            else
              if z2 then if z1 then if z0 then 47 else 113 else if z0 then 147 else 174
              else if z1 then if z0 then 233 else 32 else if z0 then 96 else 160
    else
      if z6 then
        if z5 then
          if z4 then
            if z3 then
              if z2 then if z1 then if z0 then 251 else 22 else if z0 then 58 else 78
              else if z1 then if z0 then 210 else 109 else if z0 then 183 else 194
            else
              if z2 then if z1 then if z0 then 93 else 231 else if z0 then 50 else 86
              else if z1 then if z0 then 250 else 21 else if z0 then 63 else 65
          else
            if z3 then
              if z2 then if z1 then if z0 then 195 else 94 else if z0 then 226 else 61
              else if z1 then if z0 then 71 else 201 else if z0 then 64 else 192
            else
              if z2 then if z1 then if z0 then 91 else 237 else if z0 then 44 else 116
              else if z1 then if z0 then 156 else 191 else if z0 then 218 else 117
        else
          if z4 then
            if z3 then
              if z2 then if z1 then if z0 then 159 else 186 else if z0 then 213 else 100
              else if z1 then if z0 then 172 else 239 else if z0 then 42 else 126
            else
              if z2 then if z1 then if z0 then 130 else 157 else if z0 then 188 else 223
              else if z1 then if z0 then 122 else 142 else if z0 then 137 else 128
          else
            if z3 then
              if z2 then if z1 then if z0 then 155 else 182 else if z0 then 193 else 88
              else if z1 then if z0 then 232 else 35 else if z0 then 101 else 175
            else
              if z2 then if z1 then if z0 then 234 else 37 else if z0 then 111 else 177
              else if z1 then if z0 then 200 else 67 else if z0 then 197 else 84
      else
        if z5 then
          if z4 then
            if z3 then
              if z2 then if z1 then if z0 then 252 else 31 else if z0 then 33 else 99
              else if z1 then if z0 then 165 else 244 else if z0 then 7 else 9
            else
              if z2 then if z1 then if z0 then 27 else 45 else if z0 then 119 else 153
              else if z1 then if z0 then 176 else 203 else if z0 then 70 else 202
          else
            if z3 then
              if z2 then if z1 then if z0 then 69 else 207 else if z0 then 74 else 222
              else if z1 then if z0 then 121 else 139 else if z0 then 134 else 145
            else
              if z2 then if z1 then if z0 then 168 else 227 else if z0 then 62 else 66
              else if z1 then if z0 then 198 else 81 else if z0 then 243 else 14
        else
          if z4 then
            if z3 then
              if z2 then if z1 then if z0 then 18 else 54 else if z0 then 90 else 238
              else if z1 then if z0 then 41 else 123 else if z0 then 141 else 140
            else
              if z2 then if z1 then if z0 then 143 else 138 else if z0 then 133 else 148
              else if z1 then if z0 then 167 else 242 else if z0 then 13 else 23
          else
            if z3 then
              if z2 then if z1 then if z0 then 57 else 75 else if z0 then 221 else 124
              else if z1 then if z0 then 132 else 151 else if z0 then 162 else 253
            else
              if z2 then if z1 then if z0 then 28 else 36 else if z0 then 108 else 180
              else if z1 then if z0 then 199 else 82 else if z0 then 246 else 1
  }

  // logtable[i]. The entry at 0 stands for None and is never read.
  function LogTable(i: bv8): bv8 {
    var z0, z1, z2, z3 := i & 0x01 == 0, i & 0x02 == 0, i & 0x04 == 0, i & 0x08 == 0;
    var z4, z5, z6, z7 := i & 0x10 == 0, i & 0x20 == 0, i & 0x40 == 0, i & 0x80 == 0;
    if z7 then
      if z6 then
        if z5 then
          if z4 then
            if z3 then
              if z2 then if z1 then if z0 then 0 else 0 else if z0 then 25 else 1
              else if z1 then if z0 then 50 else 2 else if z0 then 26 else 198
            else
              if z2 then if z1 then if z0 then 75 else 199 else if z0 then 27 else 104
              else if z1 then if z0 then 51 else 238 else if z0 then 223 else 3
          else
            if z3 then
              if z2 then if z1 then if z0 then 100 else 4 else if z0 then 224 else 14
              else if z1 then if z0 then 52 else 141 else if z0 then 129 else 239
            else
              if z2 then if z1 then if z0 then 76 else 113 else if z0 then 8 else 200
              else if z1 then if z0 then 248 else 105 else if z0 then 28 else 193
        else
          if z4 then
            if z3 then
              if z2 then if z1 then if z0 then 125 else 194 else if z0 then 29 else 181
              else if z1 then if z0 then 249 else 185 else if z0 then 39 else 106
            else
              if z2 then if z1 then if z0 then 77 else 228 else if z0 then 166 else 114
              else if z1 then if z0 then 154 else 201 else if z0 then 9 else 120
          else
            if z3 then
              if z2 then if z1 then if z0 then 101 else 47 else if z0 then 138 else 5
              else if z1 then if z0 then 33 else 15 else if z0 then 225 else 36
            else
              if z2 then if z1 then if z0 then 18 else 240 else if z0 then 130 else 69
              else if z1 then if z0 then 53 else 147 else if z0 then 218 else 142
      else
        if z5 then
          if z4 then
            if z3 then
              if z2 then if z1 then if z0 then 150 else 143 else if z0 then 219 else 189
              else if z1 then if z0 then 54 else 208 else if z0 then 206 else 148
            else
              if z2 then if z1 then if z0 then 19 else 92 else if z0 then 210 else 241
              else if z1 then if z0 then 64 else 70 else if z0 then 131 else 56
          else
            if z3 then
              if z2 then if z1 then if z0 then 102 else 221 else if z0 then 253 else 48
              else if z1 then if z0 then 191 else 6 else if z0 then 139 else 98
            else
              if z2 then if z1 then if z0 then 179 else 37 else if z0 then 226 else 152
              else if z1 then if z0 then 34 else 136 else if z0 then 145 else 16
        else
          if z4 then
            if z3 then
              if z2 then if z1 then if z0 then 126 else 110 else if z0 then 72 else 195
              else if z1 then if z0 then 163 else 182 else if z0 then 30 else 66
            else
              if z2 then if z1 then if z0 then 58 else 107 else if z0 then 40 else 84
              else if z1 then if z0 then 250 else 133 else if z0 then 61 else 186
          else
            if z3 then
              if z2 then if z1 then if z0 then 43 else 121 else if z0 then 10 else 21
              else if z1 then if z0 then 155 else 159 else if z0 then 94 else 202
            else
              if z2 then if z1 then if z0 then 78 else 212 else if z0 then 172 else 229
              else if z1 then if z0 then 243 else 115 else if z0 then 167 else 87
    else
      if z6 then
        if z5 then
          if z4 then
            if z3 then
              if z2 then if z1 then if z0 then 175 else 88 else if z0 then 168 else 80
              else if z1 then if z0 then 244 else 234 else if z0 then 214 else 116
            else
              if z2 then if z1 then if z0 then 79 else 174 else if z0 then 233 else 213
              else if z1 then if z0 then 231 else 230 else if z0 then 173 else 232
          else
            if z3 then
              if z2 then if z1 then if z0 then 44 else 215 else if z0 then 117 else 122
              else if z1 then if z0 then 235 else 22 else if z0 then 11 else 245
            else
              if z2 then if z1 then if z0 then 89 else 203 else if z0 then 95 else 176
              else if z1 then if z0 then 156 else 169 else if z0 then 81 else 160
        else
          if z4 then
            if z3 then
              if z2 then if z1 then if z0 then 127 else 12 else if z0 then 246 else 111
              else if z1 then if z0 then 23 else 196 else if z0 then 73 else 236
            else
              if z2 then if z1 then if z0 then 216 else 67 else if z0 then 31 else 45
              else if z1 then if z0 then 164 else 118 else if z0 then 123 else 183
          else
            if z3 then
              if z2 then if z1 then if z0 then 204 else 187 else if z0 then 62 else 90
              else if z1 then if z0 then 251 else 96 else if z0 then 177 else 134
            else
              if z2 then if z1 then if z0 then 59 else 82 else if z0 then 161 else 108
              else if z1 then if z0 then 170 else 85 else if z0 then 41 else 157
      else
        if z5 then
          if z4 then
            if z3 then
              if z2 then if z1 then if z0 then 151 else 178 else if z0 then 135 else 144
              else if z1 then if z0 then 97 else 190 else if z0 then 220 else 252
            else
              if z2 then if z1 then if z0 then 188 else 149 else if z0 then 207 else 205
              else if z1 then if z0 then 55 else 63 else if z0 then 91 else 209
          else
            if z3 then
              if z2 then if z1 then if z0 then 83 else 57 else if z0 then 132 else 60
              else if z1 then if z0 then 65 else 162 else if z0 then 109 else 71
            else
              if z2 then if z1 then if z0 then 20 else 42 else if z0 then 158 else 93
              else if z1 then if z0 then 86 else 242 else if z0 then 211 else 171
        else
          if z4 then
            if z3 then
              if z2 then if z1 then if z0 then 68 else 17 else if z0 then 146 else 217
              else if z1 then if z0 then 35 else 32 else if z0 then 46 else 137
            else
              if z2 then if z1 then if z0 then 180 else 124 else if z0 then 184 else 38
              else if z1 then if z0 then 119 else 153 else if z0 then 227 else 165
          else
            if z3 then
              if z2 then if z1 then if z0 then 103 else 74 else if z0 then 237 else 222
              else if z1 then if z0 then 197 else 49 else if z0 then 254 else 24
            else
              if z2 then if z1 then if z0 then 13 else 99 else if z0 then 140 else 128
              else if z1 then if z0 then 192 else 247 else if z0 then 112 else 7
  }

  // Multiplication by x: shift, then reduce by x^8 + x^4 + x^3 + x + 1.
  function Double(a: bv8): bv8 {
    (a << 1) ^ (if a & 0x80 != 0 then 0x1b else 0)
  }

  function Triple(a: bv8): bv8 {
    a ^ Double(a)
  }

  // Each entry of the exponent table is three times the entry before it.
  lemma {:induction false} ExpTableStep(i: bv8)
    requires i != 255
    ensures ExpTable(i + 1) == Triple(ExpTable(i))
  {}

  // The tables invert each other.
  lemma {:induction false} LogOfExpTable(i: bv8)
    requires i != 255
    ensures ExpTable(i) != 0 && LogTable(ExpTable(i)) == i
  {}

  lemma {:induction false} ExpOfLogTable(a: bv8)
    requires a != 0
    ensures LogTable(a) != 255 && ExpTable(LogTable(a)) == a
  {}

  function Xor(x: bv8, y: bv8): bv8 {
    x ^ y
  }

  lemma ShiftXor(x: bv8, y: bv8)
    ensures (x ^ y) << 1 == (x << 1) ^ (y << 1)
    ensures (x ^ y) & 0x80 == (x & 0x80) ^ (y & 0x80)
  {}

  lemma {:induction false} DoubleXor(x: bv8, y: bv8)
    ensures Double(Xor(x, y)) == Xor(Double(x), Double(y))
  {
    ShiftXor(x, y);
    if x & 0x80 != 0 {
      if y & 0x80 != 0 {}
    }
  }

  lemma LowBit(b: bv8)
    ensures b == (if b & 1 == 1 then 1 else 0) ^ Double(b >> 1)
  {}

  lemma TableEnds()
    ensures ExpTable(0) == ExpTable(255) == 1 && ExpTable(1) == 3
  {}
}
